/** Events and records: three nested canonical encodings with a digest at two levels. */
module Ledger {
  import opened Prelude
  import opened Cbor

  const PROTOCOL_VERSION: Uint64 := 1
  const RECORD_VERSION: Uint64 := 1

  const DIGEST_ALGORITHM: Bytes := Ascii("sha-256")
  const SIGNATURE_ALGORITHM: Bytes := Ascii("ecdsa-p256-sha256")
  const SIGNATURE_ENCODING: Bytes := Ascii("asn1-der")

  const EVENT_DOMAIN: Bytes := Ascii("attribution-chain:event-digest:v1")
  const RECORD_DOMAIN: Bytes := Ascii("attribution-chain:record-digest:v1")

  const MAX_PAYLOAD_BYTES: nat := 65_536
  const MAX_EVENT_BODY_BYTES: nat := 98_304
  const MAX_RECORD_BODY_BYTES: nat := 131_072
  const MAX_LEDGER_RECORD_BYTES: nat := 131_200
  const MAX_SIGNER_REFERENCE_BYTES: nat := 512
  const MIN_SIGNATURE_BYTES: nat := 8
  const MAX_SIGNATURE_BYTES: nat := 72

  const LEDGER_INITIALIZED: Uint64 := 1
  const ENDORSEMENT_ACCEPTED: Uint64 := 2
  const ENDORSEMENT_REVOKED: Uint64 := 3

  const GENESIS_PAYLOAD_VERSION: Uint64 := 1
  const GENESIS_PAYLOAD: Bytes := [0xA0]

  // ----- domain-separated digests -----

  function Preimage(domain: Bytes, body: Bytes): Bytes {
    domain + [0] + body
  }

  function DomainDigest(h: Hash, domain: Bytes, body: Bytes): Digest {
    h(Preimage(domain, body))
  }

  predicate ZeroFree(domain: Bytes) {
    forall i :: 0 <= i < |domain| ==> domain[i] != 0
  }

  /** A preimage determines its domain and its body, whatever the two lengths. */
  lemma PreimageDetermines(domain: Bytes, body: Bytes, domain': Bytes, body': Bytes)
    requires ZeroFree(domain) && ZeroFree(domain')
    requires Preimage(domain, body) == Preimage(domain', body')
    ensures domain == domain' && body == body'
  {
    var p, p' := Preimage(domain, body), Preimage(domain', body');
    assert p[|domain|] == 0 && p'[|domain'|] == 0;
    assert forall i :: 0 <= i < |domain| ==> p[i] == domain[i];
    assert forall i :: 0 <= i < |domain'| ==> p'[i] == domain'[i];
    assert |domain| == |domain'|;
    assert p[..|domain|] == domain && p'[..|domain'|] == domain';
    assert p[|domain| + 1..] == body && p'[|domain'| + 1..] == body';
  }

  /** Two distinct preimages with one digest. */
  ghost predicate Collision(h: Hash, x: Bytes, y: Bytes) {
    x != y && h(x) == h(y)
  }

  /** No body is hashed as an event and as a record under one preimage: digests that agree
      across the two domains are a collision. */
  lemma DomainsSeparate(h: Hash, eventBody: Bytes, recordBody: Bytes)
    requires DomainDigest(h, EVENT_DOMAIN, eventBody) == DomainDigest(h, RECORD_DOMAIN, recordBody)
    ensures Collision(h, Preimage(EVENT_DOMAIN, eventBody), Preimage(RECORD_DOMAIN, recordBody))
  {
    assert |EVENT_DOMAIN| != |RECORD_DOMAIN|;
    if Preimage(EVENT_DOMAIN, eventBody) == Preimage(RECORD_DOMAIN, recordBody) {
      PreimageDetermines(EVENT_DOMAIN, eventBody, RECORD_DOMAIN, recordBody);
    }
  }

  // ----- events -----

  datatype Event = Event(
    bytes: Bytes,
    digest: Digest,
    ledger: LedgerId,
    sequence: Uint64,
    previous: Option<Digest>,
    admittedAt: Uint64,
    kind: Uint64,
    payloadVersion: Uint64,
    payload: Bytes)

  const EVENT_SCHEMA: seq<Kind> :=
    [UIntField, BytesField, UIntField, BytesField, UIntField, UIntField, UIntField, BytesField]

  function PreviousItem(previous: Option<Digest>): Item {
    if previous.None? then Null else BStr(previous.value)
  }

  function EventFields(ledger: LedgerId, sequence: Uint64, previous: Option<Digest>, admittedAt: Uint64,
                       kind: Uint64, payloadVersion: Uint64, payload: Bytes): (fields: seq<Item>)
    ensures |fields| == 8
  {
    [UInt(PROTOCOL_VERSION), BStr(ledger), UInt(sequence), PreviousItem(previous),
     UInt(admittedAt), UInt(kind), UInt(payloadVersion), BStr(payload)]
  }

  /** The event body byte by byte, after its map head. */
  function EventParts(ledger: LedgerId, sequence: Uint64, previous: Option<Digest>, admittedAt: Uint64,
                      kind: Uint64, payloadVersion: Uint64, payload: Bytes): seq<Bytes>
  {
    [[0x00] + [0x01],
     [0x01] + ([0x58, 0x20] + ledger),
     [0x02] + EncodeHead(0, sequence),
     [0x03] + (if previous.None? then [0xF6] else [0x58, 0x20] + previous.value),
     [0x04] + EncodeHead(0, admittedAt),
     [0x05] + EncodeHead(0, kind),
     [0x06] + EncodeHead(0, payloadVersion),
     [0x07] + (EncodeHead(2, |payload|) + payload)]
  }

  lemma TextPart(i: nat, text: Bytes)
    requires i < 24 && |text| < 24
    ensures PartAt([i] + ([0x60 + |text|] + text), i, TStr(text))
  {
    HeadForms(3, |text|);
  }

  lemma DigestPart(i: nat, digest: Digest)
    requires i < 24
    ensures PartAt([i] + ([0x58, 0x20] + digest), i, BStr(digest))
  {
    HeadForms(2, 32);
  }

  lemma EventLayout(ledger: LedgerId, sequence: Uint64, previous: Option<Digest>, admittedAt: Uint64,
                    kind: Uint64, payloadVersion: Uint64, payload: Bytes)
    ensures EncodeMap(Keyed(EventFields(ledger, sequence, previous, admittedAt, kind, payloadVersion, payload))) ==
            [0xA8] + Concat(EventParts(ledger, sequence, previous, admittedAt, kind, payloadVersion, payload))
  {
    var f := EventFields(ledger, sequence, previous, admittedAt, kind, payloadVersion, payload);
    var parts := EventParts(ledger, sequence, previous, admittedAt, kind, payloadVersion, payload);
    assert PartAt(parts[0], 0, f[0]) by { HeadForms(0, 1); }
    assert PartAt(parts[1], 1, f[1]) by { DigestPart(1, ledger); }
    assert PartAt(parts[3], 3, f[3]) by { if previous.Some? { DigestPart(3, previous.value); } }
    PartByPart(parts, f);
    StructLayout(f, parts);
  }

  function BytesLength(item: Item): nat {
    if item.BStr? then |item.bytes| else 0
  }

  /** `validateEventBodyWire`, then the event the decoded fields make. */
  function EventFromWire(h: Hash, encoded: Bytes, w: seq<Item>): (r: Result<Event>)
    requires Fits(w, EVENT_SCHEMA)
  {
    if w[0].n != PROTOCOL_VERSION then Err(UnsupportedVersion)
    else if BytesLength(w[1]) != 32 then Err(SchemaViolation)
    else if w[2].n == 0 then Err(InvalidSequence)
    else if w[3].BStr? && |w[3].bytes| != 32 then Err(SchemaViolation)
    else if w[5].n == 0 || w[6].n == 0 then Err(SchemaViolation)
    else if BytesLength(w[7]) == 0 || BytesLength(w[7]) > MAX_PAYLOAD_BYTES then Err(SchemaViolation)
    else Ok(Event(
      encoded, DomainDigest(h, EVENT_DOMAIN, encoded), w[1].bytes, w[2].n,
      if w[3].Null? then None else Some(w[3].bytes), w[4].n, w[5].n, w[6].n, w[7].bytes))
  }

  function ValidateEvent(h: Hash, encoded: Bytes): (r: Result<Event>) {
    var w :- DecodeCanonical(encoded, MAX_EVENT_BODY_BYTES, EVENT_SCHEMA);
    EventFromWire(h, encoded, w)
  }

  function NewEvent(h: Hash, ledger: LedgerId, sequence: Uint64, previous: Option<Digest>,
                    admittedAt: Uint64, kind: Uint64, payloadVersion: Uint64, payload: Bytes): (r: Result<Event>) {
    var encoded :- EncodeCanonical(
      EventFields(ledger, sequence, previous, admittedAt, kind, payloadVersion, payload), MAX_EVENT_BODY_BYTES);
    ValidateEvent(h, encoded)
  }

  predicate EventInBounds(sequence: Uint64, kind: Uint64, payloadVersion: Uint64, payload: Bytes) {
    sequence > 0 && kind > 0 && payloadVersion > 0 && 1 <= |payload| <= MAX_PAYLOAD_BYTES
  }

  /** What a validated event is, said without the decoder. */
  ghost predicate IsEvent(h: Hash, e: Event) {
    && EventInBounds(e.sequence, e.kind, e.payloadVersion, e.payload)
    && e.bytes == EncodeMap(Keyed(FieldsOf(e)))
    && e.digest == DomainDigest(h, EVENT_DOMAIN, e.bytes)
  }

  lemma EventSize(ledger: LedgerId, sequence: Uint64, previous: Option<Digest>, admittedAt: Uint64,
                  kind: Uint64, payloadVersion: Uint64, payload: Bytes)
    ensures var size := |EncodeMap(Keyed(EventFields(ledger, sequence, previous, admittedAt, kind, payloadVersion, payload)))|;
            0 < size <= 114 + HeadSize(|payload|) + |payload|
  {
    var f := EventFields(ledger, sequence, previous, admittedAt, kind, payloadVersion, payload);
    EncodedSize(f);
    assert FieldsSize(f, 8) == 0;
    assert FieldsSize(f, 6) == 2 + ItemSize(f[6]) + ItemSize(f[7]);
    assert FieldsSize(f, 4) == 2 + ItemSize(f[4]) + ItemSize(f[5]) + FieldsSize(f, 6);
    assert FieldsSize(f, 2) == 2 + ItemSize(f[2]) + ItemSize(f[3]) + FieldsSize(f, 4);
    assert FieldsSize(f, 0) == 2 + ItemSize(f[0]) + ItemSize(f[1]) + FieldsSize(f, 2);
  }

  function FieldsOf(e: Event): (fields: seq<Item>) {
    EventFields(e.ledger, e.sequence, e.previous, e.admittedAt, e.kind, e.payloadVersion, e.payload)
  }

  lemma EventFromWireExact(h: Hash, encoded: Bytes, w: seq<Item>, e: Event)
    requires Fits(w, EVENT_SCHEMA)
    ensures EventFromWire(h, encoded, w) == Ok(e) <==>
            && w == FieldsOf(e)
            && EventInBounds(e.sequence, e.kind, e.payloadVersion, e.payload)
            && e.bytes == encoded && e.digest == DomainDigest(h, EVENT_DOMAIN, encoded)
  {
    assert OfKind(w[0], UIntField) && OfKind(w[1], BytesField) && OfKind(w[2], UIntField) && OfKind(w[3], BytesField);
    assert OfKind(w[4], UIntField) && OfKind(w[5], UIntField) && OfKind(w[6], UIntField) && OfKind(w[7], BytesField);
  }

  lemma EventFieldsFit(e: Event)
    requires |e.payload| <= MAX_UINT64
    ensures Fits(FieldsOf(e), EVENT_SCHEMA)
    ensures forall i :: 0 <= i < 8 ==> Decodable(FieldsOf(e)[i])
  {
  }

  /** Validation accepts exactly the encodings of in-bounds events, each as itself. */
  lemma ValidateEventExact(h: Hash, encoded: Bytes, e: Event)
    ensures ValidateEvent(h, encoded) == Ok(e) <==> IsEvent(h, e) && e.bytes == encoded
  {
    var decoded := DecodeCanonical(encoded, MAX_EVENT_BODY_BYTES, EVENT_SCHEMA);
    if decoded.Ok? {
      DecodeCanonicalExact(encoded, MAX_EVENT_BODY_BYTES, EVENT_SCHEMA, decoded.value);
      EventFromWireExact(h, encoded, decoded.value, e);
    }
    if IsEvent(h, e) && e.bytes == encoded {
      EventSize(e.ledger, e.sequence, e.previous, e.admittedAt, e.kind, e.payloadVersion, e.payload);
      EventFieldsFit(e);
      DecodeCanonicalExact(encoded, MAX_EVENT_BODY_BYTES, EVENT_SCHEMA, FieldsOf(e));
    }
  }

  lemma EventRevalidates(h: Hash, e: Event)
    requires IsEvent(h, e)
    ensures ValidateEvent(h, e.bytes) == Ok(e) && 0 < |e.bytes| <= 65_655
  {
    EventSize(e.ledger, e.sequence, e.previous, e.admittedAt, e.kind, e.payloadVersion, e.payload);
    ValidateEventExact(h, e.bytes, e);
  }

  lemma AcceptedIsInBounds(h: Hash, e: Event, v: Event)
    requires e.bytes == EncodeMap(Keyed(FieldsOf(e))) && |e.payload| <= MAX_UINT64
    requires ValidateEvent(h, e.bytes) == Ok(v)
    ensures EventInBounds(e.sequence, e.kind, e.payloadVersion, e.payload)
  {
    ValidateEventExact(h, e.bytes, v);
    EventFieldsFit(e);
    EventFieldsFit(v);
    EncodingInjective(FieldsOf(e), FieldsOf(v));
    assert FieldsOf(e)[2] == FieldsOf(v)[2] && FieldsOf(e)[5] == FieldsOf(v)[5];
    assert FieldsOf(e)[6] == FieldsOf(v)[6] && FieldsOf(e)[7] == FieldsOf(v)[7];
  }

  /** The event a list of field values makes. */
  function EventOf(h: Hash, ledger: LedgerId, sequence: Uint64, previous: Option<Digest>,
                   admittedAt: Uint64, kind: Uint64, payloadVersion: Uint64, payload: Bytes): (e: Event)
    ensures e.bytes == EncodeMap(Keyed(FieldsOf(e)))
  {
    var bytes := EncodeMap(Keyed(EventFields(ledger, sequence, previous, admittedAt, kind, payloadVersion, payload)));
    Event(bytes, DomainDigest(h, EVENT_DOMAIN, bytes), ledger, sequence, previous, admittedAt, kind, payloadVersion, payload)
  }

  /** `NewEvent` succeeds exactly on in-bounds inputs and returns the event that carries them.
      It never fails for size: an event body is at most 65,655 bytes. */
  lemma NewEventExact(h: Hash, ledger: LedgerId, sequence: Uint64, previous: Option<Digest>,
                      admittedAt: Uint64, kind: Uint64, payloadVersion: Uint64, payload: Bytes)
    ensures var e, r := EventOf(h, ledger, sequence, previous, admittedAt, kind, payloadVersion, payload),
                        NewEvent(h, ledger, sequence, previous, admittedAt, kind, payloadVersion, payload);
            if sequence >= 1 && kind >= 1 && payloadVersion >= 1 && 1 <= |payload| <= 65_536
            then r == Ok(e) && IsEvent(h, e) && |e.bytes| <= 65_655
            else r.Err?
  {
    var e := EventOf(h, ledger, sequence, previous, admittedAt, kind, payloadVersion, payload);
    if EventInBounds(sequence, kind, payloadVersion, payload) {
      EventRevalidates(h, e);
    } else if |e.bytes| <= MAX_EVENT_BODY_BYTES && ValidateEvent(h, e.bytes).Ok? {
      EncodedPayloadSize(FieldsOf(e));
      AcceptedIsInBounds(h, e, ValidateEvent(h, e.bytes).value);
    }
  }

  lemma EncodedPayloadSize(f: seq<Item>)
    requires |f| == 8
    ensures ItemSize(f[7]) < |EncodeMap(Keyed(f))|
  {
    EncodedSize(f);
    assert FieldsSize(f, 7) == 1 + ItemSize(f[7]) by { assert FieldsSize(f, 8) == 0; }
    assert FieldsSize(f, 5) >= FieldsSize(f, 7);
    assert FieldsSize(f, 3) >= FieldsSize(f, 5);
    assert FieldsSize(f, 1) >= FieldsSize(f, 3);
  }

  // ----- the genesis event -----

  function ValidateGenesisPayload(payload: Bytes): (r: Result<()>) {
    var _ :- DecodeCanonical(payload, MAX_PAYLOAD_BYTES, []);
    if payload != GENESIS_PAYLOAD then Err(SchemaViolation) else Ok(())
  }

  function NewGenesisEvent(h: Hash, ledger: LedgerId, admittedAt: Uint64): (r: Result<Event>) {
    var _ :- ValidateGenesisPayload(GENESIS_PAYLOAD);
    NewEvent(h, ledger, 1, None, admittedAt, LEDGER_INITIALIZED, GENESIS_PAYLOAD_VERSION, GENESIS_PAYLOAD)
  }

  /** The checks `ValidateEventSemantics` makes of the re-validated event. */
  function CheckGenesis(v: Event): (r: Result<()>) {
    if v.kind != LEDGER_INITIALIZED || v.payloadVersion != GENESIS_PAYLOAD_VERSION then Err(UnsupportedEvent)
    else if v.sequence != 1 || v.previous.Some? then Err(InvalidSequence)
    else ValidateGenesisPayload(v.payload)
  }

  function ValidateEventSemantics(h: Hash, event: Event): (r: Result<()>) {
    if event.bytes == [] then Err(SchemaViolation)
    else
      var v :- ValidateEvent(h, event.bytes);
      CheckGenesis(v)
  }

  ghost predicate IsGenesis(e: Event) {
    && e.kind == LEDGER_INITIALIZED && e.payloadVersion == GENESIS_PAYLOAD_VERSION
    && e.sequence == 1 && e.previous.None? && e.payload == GENESIS_PAYLOAD
  }

  lemma EmptyMapEncoding()
    ensures Keyed([]) == [] && EncodeMap([]) == GENESIS_PAYLOAD
  {
    assert BigEndian(0, 0) == [];
  }

  lemma GenesisPayloadExact(payload: Bytes)
    ensures ValidateGenesisPayload(payload).Ok? <==> payload == GENESIS_PAYLOAD
  {
    EmptyMapEncoding();
    DecodeCanonicalExact(payload, MAX_PAYLOAD_BYTES, [], []);
  }

  lemma CheckGenesisExact(e: Event)
    ensures CheckGenesis(e).Ok? <==> IsGenesis(e)
  {
    GenesisPayloadExact(e.payload);
  }

  /** Of the validated events, the semantic check accepts the genesis event and nothing else. */
  lemma SemanticsExact(h: Hash, e: Event)
    requires IsEvent(h, e)
    ensures ValidateEventSemantics(h, e).Ok? <==> IsGenesis(e)
  {
    EventRevalidates(h, e);
    CheckGenesisExact(e);
  }

  lemma GenesisEventBuilt(h: Hash, ledger: LedgerId, admittedAt: Uint64)
    ensures var r := NewGenesisEvent(h, ledger, admittedAt);
            r.Ok? && IsEvent(h, r.value) && IsGenesis(r.value) && r.value.ledger == ledger
  {
    GenesisPayloadExact(GENESIS_PAYLOAD);
    NewEventExact(h, ledger, 1, None, admittedAt, LEDGER_INITIALIZED, GENESIS_PAYLOAD_VERSION, GENESIS_PAYLOAD);
  }

  // ----- records -----

  datatype Record = Record(
    bytes: Bytes,
    body: Bytes,
    digest: Digest,
    event: Event,
    signer: Bytes,
    signature: Bytes)

  const BODY_SCHEMA: seq<Kind> :=
    [UIntField, BytesField, TextField, BytesField, TextField, TextField, TextField, BytesField]
  const RECORD_SCHEMA: seq<Kind> := [UIntField, BytesField, TextField, BytesField]

  function BodyFields(eventBytes: Bytes, eventDigest: Digest, signer: Bytes, signature: Bytes): (fields: seq<Item>)
    ensures |fields| == 8
  {
    [UInt(RECORD_VERSION), BStr(eventBytes), TStr(DIGEST_ALGORITHM), BStr(eventDigest),
     TStr(signer), TStr(SIGNATURE_ALGORITHM), TStr(SIGNATURE_ENCODING), BStr(signature)]
  }

  function RecordFields(body: Bytes, digest: Digest): (fields: seq<Item>)
    ensures |fields| == 4
  {
    [UInt(RECORD_VERSION), BStr(body), TStr(DIGEST_ALGORITHM), BStr(digest)]
  }

  /** The record body and the record byte by byte, after their map heads. */
  function BodyParts(eventBytes: Bytes, eventDigest: Digest, signer: Bytes, signature: Bytes): seq<Bytes> {
    [[0x00] + [0x01],
     [0x01] + (EncodeHead(2, |eventBytes|) + eventBytes),
     [0x02] + ([0x67] + Ascii("sha-256")),
     [0x03] + ([0x58, 0x20] + eventDigest),
     [0x04] + (EncodeHead(3, |signer|) + signer),
     [0x05] + ([0x71] + Ascii("ecdsa-p256-sha256")),
     [0x06] + ([0x68] + Ascii("asn1-der")),
     [0x07] + (EncodeHead(2, |signature|) + signature)]
  }

  lemma BodyLayout(eventBytes: Bytes, eventDigest: Digest, signer: Bytes, signature: Bytes)
    ensures EncodeMap(Keyed(BodyFields(eventBytes, eventDigest, signer, signature))) ==
            [0xA8] + Concat(BodyParts(eventBytes, eventDigest, signer, signature))
  {
    var f, parts := BodyFields(eventBytes, eventDigest, signer, signature), BodyParts(eventBytes, eventDigest, signer, signature);
    BodyPartsOf(f, parts, eventBytes, eventDigest, signer, signature, DIGEST_ALGORITHM, SIGNATURE_ALGORITHM, SIGNATURE_ENCODING);
    StructLayout(f, parts);
  }

  lemma BodyPartsOf(f: seq<Item>, parts: seq<Bytes>, event: Bytes, digest: Digest, signer: Bytes, signature: Bytes,
                    digestAlgorithm: Bytes, algorithm: Bytes, encoding: Bytes)
    requires |digestAlgorithm| == 7 && |algorithm| == 17 && |encoding| == 8
    requires f == [UInt(1), BStr(event), TStr(digestAlgorithm), BStr(digest), TStr(signer), TStr(algorithm), TStr(encoding), BStr(signature)]
    requires parts == [
               [0x00] + [0x01],
               [0x01] + (EncodeHead(2, |event|) + event),
               [0x02] + ([0x67] + digestAlgorithm),
               [0x03] + ([0x58, 0x20] + digest),
               [0x04] + (EncodeHead(3, |signer|) + signer),
               [0x05] + ([0x71] + algorithm),
               [0x06] + ([0x68] + encoding),
               [0x07] + (EncodeHead(2, |signature|) + signature)]
    ensures PartsOf(parts, f)
  {
    assert PartAt(parts[0], 0, f[0]) by { HeadForms(0, 1); }
    assert PartAt(parts[1], 1, f[1]) && PartAt(parts[4], 4, f[4]) && PartAt(parts[7], 7, f[7]);
    assert PartAt(parts[2], 2, f[2]) by { TextPart(2, digestAlgorithm); }
    assert PartAt(parts[3], 3, f[3]) by { DigestPart(3, digest); }
    assert PartAt(parts[5], 5, f[5]) by { TextPart(5, algorithm); }
    assert PartAt(parts[6], 6, f[6]) by { TextPart(6, encoding); }
    PartByPart(parts, f);
  }

  function RecordParts(body: Bytes, digest: Digest): seq<Bytes> {
    [[0x00] + [0x01],
     [0x01] + (EncodeHead(2, |body|) + body),
     [0x02] + ([0x67] + Ascii("sha-256")),
     [0x03] + ([0x58, 0x20] + digest)]
  }

  lemma RecordLayout(body: Bytes, digest: Digest)
    ensures EncodeMap(Keyed(RecordFields(body, digest))) == [0xA4] + Concat(RecordParts(body, digest))
  {
    RecordPartsOf(RecordFields(body, digest), RecordParts(body, digest), body, digest, DIGEST_ALGORITHM);
    StructLayout(RecordFields(body, digest), RecordParts(body, digest));
  }

  lemma RecordPartsOf(f: seq<Item>, parts: seq<Bytes>, body: Bytes, digest: Digest, algorithm: Bytes)
    requires |algorithm| == 7 && f == [UInt(1), BStr(body), TStr(algorithm), BStr(digest)]
    requires parts == [[0x00] + [0x01], [0x01] + (EncodeHead(2, |body|) + body),
                       [0x02] + ([0x67] + algorithm), [0x03] + ([0x58, 0x20] + digest)]
    ensures PartsOf(parts, f)
  {
    assert PartAt(parts[0], 0, f[0]) by { HeadForms(0, 1); }
    assert PartAt(parts[1], 1, f[1]);
    assert PartAt(parts[2], 2, f[2]) by { TextPart(2, algorithm); }
    assert PartAt(parts[3], 3, f[3]) by { DigestPart(3, digest); }
    PartByPart(parts, f);
  }

  predicate ValidSigner(reference: Bytes) {
    && 1 <= |reference| <= MAX_SIGNER_REFERENCE_BYTES
    && forall i :: 0 <= i < |reference| ==> 0x20 <= reference[i] <= 0x7E
  }

  predicate ValidSignatureLength(signature: Bytes) {
    MIN_SIGNATURE_BYTES <= |signature| <= MAX_SIGNATURE_BYTES
  }

  function CheckRecordWire(w: seq<Item>): (r: Result<()>)
    requires Fits(w, RECORD_SCHEMA)
  {
    if w[0].n != RECORD_VERSION then Err(UnsupportedVersion)
    else if BytesLength(w[1]) == 0 || BytesLength(w[1]) > MAX_RECORD_BODY_BYTES then Err(SchemaViolation)
    else if w[2].text != DIGEST_ALGORITHM || BytesLength(w[3]) != 32 then Err(SchemaViolation)
    else Ok(())
  }

  function CheckBodyWire(w: seq<Item>): (r: Result<()>)
    requires Fits(w, BODY_SCHEMA)
  {
    if w[0].n != RECORD_VERSION then Err(UnsupportedVersion)
    else if BytesLength(w[1]) == 0 || BytesLength(w[1]) > MAX_EVENT_BODY_BYTES then Err(SchemaViolation)
    else if w[2].text != DIGEST_ALGORITHM || BytesLength(w[3]) != 32 then Err(SchemaViolation)
    else if !ValidSigner(w[4].text) then Err(SchemaViolation)
    else if w[5].text != SIGNATURE_ALGORITHM || w[6].text != SIGNATURE_ENCODING then Err(SchemaViolation)
    else if !w[7].BStr? || !ValidSignatureLength(w[7].bytes) then Err(SchemaViolation)
    else Ok(())
  }

  /** The checks that follow the two decodes, and the record the decoded fields make. */
  function RecordFromWire(h: Hash, encoded: Bytes, outer: seq<Item>, body: seq<Item>): (r: Result<Record>)
    requires Fits(outer, RECORD_SCHEMA) && CheckRecordWire(outer).Ok?
    requires Fits(body, BODY_SCHEMA) && CheckBodyWire(body).Ok?
  {
    if outer[0].n != body[0].n then Err(SchemaViolation)
    else
      var digest := DomainDigest(h, RECORD_DOMAIN, outer[1].bytes);
      if digest != outer[3].bytes then Err(DigestMismatch)
      else
        var event :- ValidateEvent(h, body[1].bytes);
        if event.digest != body[3].bytes then Err(DigestMismatch)
        else Ok(Record(encoded, outer[1].bytes, digest, event, body[4].text, body[7].bytes))
  }

  function ValidateRecord(h: Hash, encoded: Bytes): (r: Result<Record>) {
    var outer :- DecodeCanonical(encoded, MAX_LEDGER_RECORD_BYTES, RECORD_SCHEMA);
    var _ :- CheckRecordWire(outer);
    var body :- DecodeCanonical(outer[1].bytes, MAX_RECORD_BODY_BYTES, BODY_SCHEMA);
    var _ :- CheckBodyWire(body);
    RecordFromWire(h, encoded, outer, body)
  }

  function NewRecord(h: Hash, event: Event, signer: Bytes, signature: Bytes): (r: Result<Record>) {
    if event.bytes == [] then Err(SchemaViolation)
    else
      var validated :- ValidateEvent(h, event.bytes);
      if !ValidSigner(signer) then Err(SchemaViolation)
      else if !ValidSignatureLength(signature) then Err(SchemaViolation)
      else
        var body :- EncodeCanonical(BodyFields(validated.bytes, validated.digest, signer, signature), MAX_RECORD_BODY_BYTES);
        var encoded :- EncodeCanonical(RecordFields(body, DomainDigest(h, RECORD_DOMAIN, body)), MAX_LEDGER_RECORD_BYTES);
        ValidateRecord(h, encoded)
  }

  /** What a validated record is, said without the decoder. */
  ghost predicate IsRecord(h: Hash, r: Record) {
    && IsEvent(h, r.event)
    && ValidSigner(r.signer) && ValidSignatureLength(r.signature)
    && r.body == EncodeMap(Keyed(BodyFields(r.event.bytes, r.event.digest, r.signer, r.signature)))
    && r.digest == DomainDigest(h, RECORD_DOMAIN, r.body)
    && r.bytes == EncodeMap(Keyed(RecordFields(r.body, r.digest)))
  }

  lemma BodySize(eventBytes: Bytes, eventDigest: Digest, signer: Bytes, signature: Bytes)
    requires |eventBytes| <= 65_655 && |signer| <= MAX_SIGNER_REFERENCE_BYTES && |signature| <= MAX_SIGNATURE_BYTES
    ensures 0 < |EncodeMap(Keyed(BodyFields(eventBytes, eventDigest, signer, signature)))| <= 66_328
  {
    var f := BodyFields(eventBytes, eventDigest, signer, signature);
    EncodedSize(f);
    assert FieldsSize(f, 8) == 0;
    assert FieldsSize(f, 6) == 2 + ItemSize(f[6]) + ItemSize(f[7]);
    assert FieldsSize(f, 4) == 2 + ItemSize(f[4]) + ItemSize(f[5]) + FieldsSize(f, 6);
    assert FieldsSize(f, 2) == 2 + ItemSize(f[2]) + ItemSize(f[3]) + FieldsSize(f, 4);
    assert FieldsSize(f, 0) == 2 + ItemSize(f[0]) + ItemSize(f[1]) + FieldsSize(f, 2);
  }

  lemma RecordEncodingSize(body: Bytes, digest: Digest)
    requires |body| <= 66_328
    ensures 0 < |EncodeMap(Keyed(RecordFields(body, digest)))| <= 66_381
  {
    var f := RecordFields(body, digest);
    EncodedSize(f);
    assert FieldsSize(f, 4) == 0;
    assert FieldsSize(f, 2) == 2 + ItemSize(f[2]) + ItemSize(f[3]);
    assert FieldsSize(f, 0) == 2 + ItemSize(f[0]) + ItemSize(f[1]) + FieldsSize(f, 2);
  }

  /** No record is over 66,381 bytes, so neither the protocol's 131,200-byte bound nor the
      table's copy of it ever rejects one. */
  lemma RecordSize(h: Hash, r: Record)
    requires IsRecord(h, r)
    ensures 0 < |r.event.bytes| <= 65_655 && 0 < |r.body| <= 66_328
    ensures 0 < |r.bytes| <= 66_381 <= MAX_LEDGER_RECORD_BYTES
  {
    var e := r.event;
    EventSize(e.ledger, e.sequence, e.previous, e.admittedAt, e.kind, e.payloadVersion, e.payload);
    BodySize(e.bytes, e.digest, r.signer, r.signature);
    RecordEncodingSize(r.body, r.digest);
  }

  lemma ConstantsAreText()
    ensures Decodable(TStr(DIGEST_ALGORITHM)) && Decodable(TStr(SIGNATURE_ALGORITHM)) && Decodable(TStr(SIGNATURE_ENCODING))
  {
    AsciiIsUtf8(DIGEST_ALGORITHM);
    AsciiIsUtf8(SIGNATURE_ALGORITHM);
    AsciiIsUtf8(SIGNATURE_ENCODING);
  }

  lemma SignerIsText(signer: Bytes)
    requires ValidSigner(signer)
    ensures Decodable(TStr(signer))
  {
    AsciiIsUtf8(signer);
  }

  lemma RecordTupleFits(v: Uint64, body: Bytes, alg: Bytes, digest: Bytes)
    requires |body| <= MAX_UINT64 && |digest| <= MAX_UINT64 && Decodable(TStr(alg))
    ensures var f := [UInt(v), BStr(body), TStr(alg), BStr(digest)];
            Fits(f, RECORD_SCHEMA) && forall i :: 0 <= i < 4 ==> Decodable(f[i])
  {
  }

  lemma BodyTupleFits(v: Uint64, event: Bytes, alg: Bytes, digest: Bytes, signer: Bytes, sigAlg: Bytes, enc: Bytes, sig: Bytes)
    requires |event| <= MAX_UINT64 && |digest| <= MAX_UINT64 && |sig| <= MAX_UINT64
    requires Decodable(TStr(alg)) && Decodable(TStr(signer)) && Decodable(TStr(sigAlg)) && Decodable(TStr(enc))
    ensures var f := [UInt(v), BStr(event), TStr(alg), BStr(digest), TStr(signer), TStr(sigAlg), TStr(enc), BStr(sig)];
            Fits(f, BODY_SCHEMA) && forall i :: 0 <= i < 8 ==> Decodable(f[i])
  {
  }

  lemma BodyFieldsFit(eventBytes: Bytes, eventDigest: Digest, signer: Bytes, signature: Bytes)
    requires |eventBytes| <= MAX_UINT64 && ValidSigner(signer) && ValidSignatureLength(signature)
    ensures Fits(BodyFields(eventBytes, eventDigest, signer, signature), BODY_SCHEMA)
    ensures forall i :: 0 <= i < 8 ==> Decodable(BodyFields(eventBytes, eventDigest, signer, signature)[i])
  {
    ConstantsAreText();
    SignerIsText(signer);
    BodyTupleFits(RECORD_VERSION, eventBytes, DIGEST_ALGORITHM, eventDigest, signer,
                  SIGNATURE_ALGORITHM, SIGNATURE_ENCODING, signature);
  }

  lemma RecordWireExact(outer: seq<Item>)
    requires Fits(outer, RECORD_SCHEMA) && CheckRecordWire(outer).Ok?
    ensures outer[1].BStr? && outer[3].BStr? && |outer[3].bytes| == 32
    ensures outer == RecordFields(outer[1].bytes, outer[3].bytes)
  {
    assert OfKind(outer[0], UIntField) && OfKind(outer[1], BytesField) && OfKind(outer[2], TextField) && OfKind(outer[3], BytesField);
  }

  lemma BodyWireExact(w: seq<Item>)
    requires Fits(w, BODY_SCHEMA) && CheckBodyWire(w).Ok?
    ensures w[1].BStr? && w[3].BStr? && |w[3].bytes| == 32
    ensures w == BodyFields(w[1].bytes, w[3].bytes, w[4].text, w[7].bytes)
  {
    assert OfKind(w[0], UIntField) && OfKind(w[1], BytesField) && OfKind(w[2], TextField) && OfKind(w[3], BytesField);
    assert OfKind(w[4], TextField) && OfKind(w[5], TextField) && OfKind(w[6], TextField) && OfKind(w[7], BytesField);
  }

  lemma ValidatedIsRecord(h: Hash, encoded: Bytes)
    requires ValidateRecord(h, encoded).Ok?
    ensures IsRecord(h, ValidateRecord(h, encoded).value)
    ensures ValidateRecord(h, encoded).value.bytes == encoded
  {
    var outer := DecodeCanonical(encoded, MAX_LEDGER_RECORD_BYTES, RECORD_SCHEMA).value;
    DecodeCanonicalExact(encoded, MAX_LEDGER_RECORD_BYTES, RECORD_SCHEMA, outer);
    RecordWireExact(outer);
    var body := DecodeCanonical(outer[1].bytes, MAX_RECORD_BODY_BYTES, BODY_SCHEMA).value;
    DecodeCanonicalExact(outer[1].bytes, MAX_RECORD_BODY_BYTES, BODY_SCHEMA, body);
    BodyWireExact(body);
    ValidateEventExact(h, body[1].bytes, ValidateEvent(h, body[1].bytes).value);
  }

  lemma BodyDecodes(h: Hash, r: Record)
    requires IsRecord(h, r)
    ensures DecodeCanonical(r.body, MAX_RECORD_BODY_BYTES, BODY_SCHEMA)
            == Ok(BodyFields(r.event.bytes, r.event.digest, r.signer, r.signature))
  {
    RecordSize(h, r);
    BodyFieldsFit(r.event.bytes, r.event.digest, r.signer, r.signature);
    DecodeCanonicalExact(r.body, MAX_RECORD_BODY_BYTES, BODY_SCHEMA,
                         BodyFields(r.event.bytes, r.event.digest, r.signer, r.signature));
  }

  lemma OuterDecodes(h: Hash, r: Record)
    requires IsRecord(h, r)
    ensures DecodeCanonical(r.bytes, MAX_LEDGER_RECORD_BYTES, RECORD_SCHEMA) == Ok(RecordFields(r.body, r.digest))
  {
    RecordSize(h, r);
    ConstantsAreText();
    RecordTupleFits(RECORD_VERSION, r.body, DIGEST_ALGORITHM, r.digest);
    DecodeCanonicalExact(r.bytes, MAX_LEDGER_RECORD_BYTES, RECORD_SCHEMA, RecordFields(r.body, r.digest));
  }

  lemma WireChecksPass(h: Hash, r: Record)
    requires IsRecord(h, r)
    ensures var outer, body := RecordFields(r.body, r.digest), BodyFields(r.event.bytes, r.event.digest, r.signer, r.signature);
            && Fits(outer, RECORD_SCHEMA) && CheckRecordWire(outer).Ok?
            && Fits(body, BODY_SCHEMA) && CheckBodyWire(body).Ok?
  {
    RecordSize(h, r);
  }

  lemma RecordFieldsMake(h: Hash, r: Record, outer: seq<Item>, body: seq<Item>)
    requires IsRecord(h, r)
    requires outer == RecordFields(r.body, r.digest) && body == BodyFields(r.event.bytes, r.event.digest, r.signer, r.signature)
    requires Fits(outer, RECORD_SCHEMA) && CheckRecordWire(outer).Ok?
    requires Fits(body, BODY_SCHEMA) && CheckBodyWire(body).Ok?
    ensures RecordFromWire(h, r.bytes, outer, body) == Ok(r)
  {
    EventRevalidates(h, r.event);
  }

  lemma RecordValidates(h: Hash, r: Record)
    requires IsRecord(h, r)
    ensures ValidateRecord(h, r.bytes) == Ok(r)
  {
    OuterDecodes(h, r);
    BodyDecodes(h, r);
    WireChecksPass(h, r);
    RecordFieldsMake(h, r, RecordFields(r.body, r.digest), BodyFields(r.event.bytes, r.event.digest, r.signer, r.signature));
  }

  /** Validation accepts exactly the encodings of records, each as itself. */
  lemma ValidateRecordExact(h: Hash, encoded: Bytes, r: Record)
    ensures ValidateRecord(h, encoded) == Ok(r) <==> IsRecord(h, r) && r.bytes == encoded
  {
    if ValidateRecord(h, encoded) == Ok(r) { ValidatedIsRecord(h, encoded); }
    if IsRecord(h, r) { RecordValidates(h, r); }
  }

  /** Validating a built record returns what it was built from, and building never fails on
      size: it succeeds exactly when each of the three inputs is well formed on its own. */
  lemma NewRecordThenValidate(h: Hash, event: Event, signer: Bytes, signature: Bytes)
    ensures var r := NewRecord(h, event, signer, signature);
            && (r.Ok? <==>
                && ValidateEvent(h, event.bytes).Ok?
                && 1 <= |signer| <= 512 && (forall i :: 0 <= i < |signer| ==> 0x20 <= signer[i] <= 0x7E)
                && 8 <= |signature| <= 72)
            && (r.Ok? ==>
                  && IsRecord(h, r.value) && ValidateRecord(h, r.value.bytes) == r
                  && Ok(r.value.event) == ValidateEvent(h, event.bytes)
                  && r.value.signer == signer && r.value.signature == signature)
            && (IsEvent(h, event) ==> ValidateEvent(h, event.bytes) == Ok(event))
  {
    ValidateEventExact(h, event.bytes, event);
    if ValidateEvent(h, event.bytes).Ok? {
      var e := ValidateEvent(h, event.bytes).value;
      ValidateEventExact(h, event.bytes, e);
      NewRecordOf(h, event, e, signer, signature);
    }
  }

  lemma NewRecordOf(h: Hash, event: Event, e: Event, signer: Bytes, signature: Bytes)
    requires IsEvent(h, e) && ValidateEvent(h, event.bytes) == Ok(e) && event.bytes == e.bytes
    ensures var r := NewRecord(h, event, signer, signature);
            && (r.Ok? <==> ValidSigner(signer) && ValidSignatureLength(signature))
            && (r.Ok? ==>
                  && IsRecord(h, r.value) && ValidateRecord(h, r.value.bytes) == r
                  && r.value.event == e && r.value.signer == signer && r.value.signature == signature)
  {
    EventSize(e.ledger, e.sequence, e.previous, e.admittedAt, e.kind, e.payloadVersion, e.payload);
    if ValidSigner(signer) && ValidSignatureLength(signature) {
      BodySize(e.bytes, e.digest, signer, signature);
      var body := EncodeMap(Keyed(BodyFields(e.bytes, e.digest, signer, signature)));
      var digest := DomainDigest(h, RECORD_DOMAIN, body);
      RecordEncodingSize(body, digest);
      RecordValidates(h, Record(EncodeMap(Keyed(RecordFields(body, digest))), body, digest, e, signer, signature));
    }
  }

  lemma RebuildsRecord(h: Hash, r: Record)
    requires IsRecord(h, r)
    ensures NewRecord(h, r.event, r.signer, r.signature) == Ok(r)
  {
    ValidateEventExact(h, r.event.bytes, r.event);
    NewRecordOf(h, r.event, r.event, r.signer, r.signature);
  }

  /** Rebuilding from what any accepted byte string decodes to gives back exactly its bytes. */
  lemma ValidateThenNewRecord(h: Hash, encoded: Bytes)
    requires ValidateRecord(h, encoded).Ok?
    ensures var r := ValidateRecord(h, encoded).value;
            NewRecord(h, r.event, r.signer, r.signature) == Ok(r) && r.bytes == encoded
  {
    var r := ValidateRecord(h, encoded).value;
    ValidatedIsRecord(h, encoded);
    RebuildsRecord(h, r);
  }

  /** The digest of a record commits to all of it: equal digests of different records are a
      collision of their two bodies. */
  lemma DigestCommits(h: Hash, r: Record, s: Record)
    requires IsRecord(h, r) && IsRecord(h, s) && r.digest == s.digest
    ensures r == s || (r.body != s.body && Collision(h, Preimage(RECORD_DOMAIN, r.body), Preimage(RECORD_DOMAIN, s.body)))
  {
    if r.body == s.body {
      RecordSize(h, r);
      RecordSize(h, s);
      RecordValidates(h, r);
      RecordValidates(h, s);
    } else if Preimage(RECORD_DOMAIN, r.body) == Preimage(RECORD_DOMAIN, s.body) {
      PreimageDetermines(RECORD_DOMAIN, r.body, RECORD_DOMAIN, s.body);
    }
  }
}

/** From a signature to an edge: on a ledger written only through `InitLedger`, `AdmitEndorsement`
    and `AdmitRevocation`, whatever the projector puts in the graph was verified before it was
    admitted. */
module Provenance {
  import opened Prelude
  import opened Ledger
  import opened LedgerStore
  import opened Endorsement
  import opened Admission
  import opened AdmissionService
  import opened Projection
  import Edges
  import opened TrustPaths
  import opened Evaluation

  // ----- verified payloads in the table -----

  ghost predicate RecordVouched(c: Crypto, record: Record) {
    RecordMeets(Vouching(c), record)
  }

  // ----- from a payload to an effect -----

  ghost predicate Endorses(c: Crypto, record: Record, p: Accepted, e: Edges.Edge) {
    && c.verify(p.proposer, ProposalDigest(c, p), p.proposerSignature)
    && c.verify(p.subject, AcceptanceDigest(c, p), p.subjectSignature)
    && record.event.kind == ENDORSEMENT_ACCEPTED && record.event.payload == EncodeAccepted(p)
    && e.digest == record.digest && e.sequence == record.event.sequence
    && e.proposer == p.proposer && e.subject == p.subject && e.topic == p.topic && e.claim == p.claim
    && e.proposedAt == p.proposedAt && e.acceptedAt == p.acceptedAt
  }

  ghost predicate Requests(c: Crypto, record: Record, p: Revoked, req: Edges.RevokeRequest) {
    && c.verify(p.revoker, RevocationDigest(c, p), p.signature)
    && record.event.kind == ENDORSEMENT_REVOKED && record.event.payload == EncodeRevoked(p)
    && req.target == p.target && req.revoker == p.revoker && req.role == p.role && req.at == p.revokedAt
    && req.digest == record.digest && req.reason == p.reason && req.sequence == record.event.sequence
  }

  /** The effect of a record is one its verified payload calls for. */
  ghost predicate Faithful(c: Crypto, record: Record, effect: Effect) {
    match effect
    case Advance => true
    case AddEdge(e) => e.active && e.revocation.None? && exists p :: Endorses(c, record, p, e)
    case RevokeEdge(req) => exists p :: Requests(c, record, p, req)
  }

  /** A decoded endorsement equals the one that was verified. */
  lemma DecodedIsVerified(c: Crypto, payload: Bytes, p: Accepted)
    requires Vouched(c, ENDORSEMENT_ACCEPTED, payload) && DecodeAccepted(c, payload) == Ok(p)
    ensures VerifyAccepted(c, p) && payload == EncodeAccepted(p)
  {
    var q :| VerifyAccepted(c, q) && payload == EncodeAccepted(q);
    AcceptedRoundTrip(c, q);
  }

  lemma DecodedRevocationIsVerified(c: Crypto, payload: Bytes, p: Revoked)
    requires Vouched(c, ENDORSEMENT_REVOKED, payload) && DecodeRevoked(c, payload) == Ok(p)
    ensures VerifyRevoked(c, p) && payload == EncodeRevoked(p)
  {
    var q :| VerifyRevoked(c, q) && payload == EncodeRevoked(q);
    RevokedRoundTrip(c, q);
  }

  lemma AcceptedFaithful(c: Crypto, record: Record)
    requires record.event.kind == ENDORSEMENT_ACCEPTED && Vouched(c, ENDORSEMENT_ACCEPTED, record.event.payload)
    requires AcceptedEffect(c, record).Ok?
    ensures Faithful(c, record, AcceptedEffect(c, record).value)
  {
    var p, e := AcceptedContent(c, record);
    DecodedIsVerified(c, record.event.payload, p);
    assert Endorses(c, record, p, e);
  }

  /** The edge has the content of the decoded payload, and the place of its record. */
  lemma AcceptedContent(c: Crypto, record: Record) returns (p: Accepted, e: Edges.Edge)
    requires AcceptedEffect(c, record).Ok?
    ensures DecodeAccepted(c, record.event.payload) == Ok(p) && AcceptedEffect(c, record) == Ok(AddEdge(e))
    ensures e.digest == record.digest && e.sequence == record.event.sequence && e.active && e.revocation.None?
    ensures e.proposer == p.proposer && e.subject == p.subject && e.topic == p.topic && e.claim == p.claim
    ensures e.proposedAt == p.proposedAt && e.acceptedAt == p.acceptedAt
  {
    p, e := DecodeAccepted(c, record.event.payload).value, AcceptedEffect(c, record).value.edge;
  }

  lemma RevokedFaithful(c: Crypto, record: Record)
    requires record.event.kind == ENDORSEMENT_REVOKED && Vouched(c, ENDORSEMENT_REVOKED, record.event.payload)
    requires RevokedEffect(c, record).Ok?
    ensures Faithful(c, record, RevokedEffect(c, record).value)
  {
    var p := DecodeRevoked(c, record.event.payload).value;
    DecodedRevocationIsVerified(c, record.event.payload, p);
    assert Requests(c, record, p, RevokedEffect(c, record).value.request);
  }

  lemma EffectFaithful(c: Crypto, record: Record)
    requires RecordVouched(c, record) && EffectOf(c, record).Ok?
    ensures Faithful(c, record, EffectOf(c, record).value)
  {
    if record.event.kind == ENDORSEMENT_ACCEPTED {
      AcceptedFaithful(c, record);
    } else if record.event.kind == ENDORSEMENT_REVOKED {
      RevokedFaithful(c, record);
    }
  }

  // ----- from an effect to the graph -----

  ghost predicate Endorsed(c: Crypto, records: seq<Record>, e: Edges.Edge) {
    exists i, p :: 0 <= i < |records| && Endorses(c, records[i], p, e)
  }

  /** A revocation in the ledger, verified, of this edge, by the party its role names. */
  ghost predicate Withdraws(c: Crypto, record: Record, p: Revoked, e: Edges.Edge) {
    && c.verify(p.revoker, RevocationDigest(c, p), p.signature)
    && record.event.kind == ENDORSEMENT_REVOKED && record.event.payload == EncodeRevoked(p)
    && p.target == e.digest
    && ((p.role == ROLE_PROPOSER && p.revoker == e.proposer) || (p.role == ROLE_SUBJECT && p.revoker == e.subject))
    && e.revocation == Some(Edges.Revocation(p.revokedAt, record.digest, p.reason, p.role))
  }

  ghost predicate Withdrawn(c: Crypto, records: seq<Record>, e: Edges.Edge) {
    exists i, p :: 0 <= i < |records| && Withdraws(c, records[i], p, e)
  }

  /** An edge stands for a verified endorsement of the ledger, and it is inactive only through a
      verified revocation by one of its own parties. */
  ghost predicate Traced(c: Crypto, records: seq<Record>, e: Edges.Edge) {
    Endorsed(c, records, e) && (if e.active then e.revocation.None? else Withdrawn(c, records, e))
  }

  ghost predicate AllTraced(c: Crypto, records: seq<Record>, edges: seq<Edges.Edge>) {
    forall i :: 0 <= i < |edges| ==> Traced(c, records, edges[i])
  }

  lemma AddedIsTraced(c: Crypto, records: seq<Record>, i: nat, e: Edges.Edge)
    requires i < |records| && Faithful(c, records[i], AddEdge(e))
    ensures Traced(c, records, e)
  {
    var p :| Endorses(c, records[i], p, e);
  }

  lemma RevokedIsTraced(c: Crypto, records: seq<Record>, i: nat, e: Edges.Edge, req: Edges.RevokeRequest)
    requires i < |records| && Faithful(c, records[i], RevokeEdge(req))
    requires Traced(c, records, e) && req.target == e.digest && Edges.Entitled(e, req.role) == Some(req.revoker)
    ensures Traced(c, records, Edges.RevokedEdge(e, req))
  {
    var after := Edges.RevokedEdge(e, req);
    var p :| Requests(c, records[i], p, req);
    assert Withdraws(c, records[i], p, after);
    var j, q :| 0 <= j < |records| && Endorses(c, records[j], q, e);
    assert Endorses(c, records[j], q, after);
  }

  lemma TracedAppend(c: Crypto, records: seq<Record>, edges: seq<Edges.Edge>, e: Edges.Edge)
    requires AllTraced(c, records, edges) && Traced(c, records, e)
    ensures AllTraced(c, records, edges + [e])
  {
  }

  lemma TracedUpdate(c: Crypto, records: seq<Record>, edges: seq<Edges.Edge>, at: nat, e: Edges.Edge)
    requires AllTraced(c, records, edges) && Traced(c, records, e) && at < |edges|
    ensures AllTraced(c, records, edges[at := e])
  {
  }

  lemma PerformTraced(c: Crypto, records: seq<Record>, i: nat, g: GraphValue, effect: Effect)
    requires i < |records| && Faithful(c, records[i], effect) && AllTraced(c, records, g.edges)
    requires Perform(g, records[i].event.sequence, effect).Ok?
    ensures AllTraced(c, records, Perform(g, records[i].event.sequence, effect).value.edges)
  {
    match effect
    case Advance =>
    case AddEdge(e) =>
      AddedIsTraced(c, records, i, e);
      TracedAppend(c, records, g.edges, e);
    case RevokeEdge(req) => RevokeTraced(c, records, i, g, req);
  }

  lemma RevokeTraced(c: Crypto, records: seq<Record>, i: nat, g: GraphValue, req: Edges.RevokeRequest)
    requires i < |records| && Faithful(c, records[i], RevokeEdge(req)) && AllTraced(c, records, g.edges)
    requires Edges.Revoked(g, req).Ok?
    ensures AllTraced(c, records, Edges.Revoked(g, req).value.edges)
  {
    var at := RevokedAt(g, req);
    RevokedIsTraced(c, records, i, g.edges[at], req);
    TracedUpdate(c, records, g.edges, at, Edges.RevokedEdge(g.edges[at], req));
  }

  /** A revocation that succeeds rewrites the one edge it names, for a party entitled to it. */
  lemma RevokedAt(g: GraphValue, req: Edges.RevokeRequest) returns (at: nat)
    requires Edges.Revoked(g, req).Ok?
    ensures at < |g.edges| && g.edges[at].digest == req.target
    ensures Edges.Entitled(g.edges[at], req.role) == Some(req.revoker)
    ensures Edges.Revoked(g, req).value.edges == g.edges[at := Edges.RevokedEdge(g.edges[at], req)]
  {
    at := Edges.Find(g.edges, req.target);
  }

  /** Decoding any of the records is faithful. */
  ghost predicate Trustworthy(c: Crypto, decode: Decoder, records: seq<Record>) {
    forall i :: 0 <= i < |records| && decode(records[i]).Ok? ==> Faithful(c, records[i], decode(records[i]).value)
  }

  lemma {:induction false} ReplayTraced(c: Crypto, apply: Applier, decode: Decoder, records: seq<Record>, from: nat, g: GraphValue)
    requires Implements(apply, decode) && Trustworthy(c, decode, records)
    requires from <= |records| && AllTraced(c, records, g.edges)
    ensures AllTraced(c, records, Replay(apply, g, records[from..]).0.edges)
    decreases |records| - from
  {
    if from < |records| {
      assert records[from..][0] == records[from] && records[from..][1..] == records[from + 1..];
      var step := Project(decode, g, records[from]);
      assert apply(g, records[from]) == step;
      if step.Ok? {
        PerformTraced(c, records, from, g, decode(records[from]).value);
        ReplayTraced(c, apply, decode, records, from + 1, step.value);
      }
    }
  }

  // ----- end to end -----

  lemma LedgerTrustworthy(c: Crypto, read: Reader, rows: seq<Row>, ledger: LedgerId)
    requires AllRead(read, rows) && TableMeets(Vouching(c), read, rows)
    ensures Trustworthy(c, DecoderFor(c), LedgerRecords(read, rows, ledger))
  {
    var chain, records := OfLedger(rows, ledger), LedgerRecords(read, rows, ledger);
    OfLedgerReads(read, rows, ledger);
    forall i | 0 <= i < |records| && EffectOf(c, records[i]).Ok? ensures Faithful(c, records[i], EffectOf(c, records[i]).value) {
      OfLedgerMembers(rows, ledger, chain[i]);
      var j :| 0 <= j < |rows| && rows[j] == chain[i];
      assert RecordVouched(c, RecordOf(read, rows[j]));
      EffectFaithful(c, records[i]);
    }
  }

  /** What a projector makes of a ledger of this table. */
  ghost function GraphOf(c: Crypto, read: Reader, rows: seq<Row>, ledger: LedgerId): GraphValue {
    Replay(ApplierFor(DecoderFor(c)), Edges.GraphValue(ledger, 0, []), LedgerRecords(read, rows, ledger)).0
  }

  /** On a table of verified payloads, which `InitLedger`, `AdmitEndorsement` and `AdmitRevocation`
      keep, every edge the projector builds comes from an endorsement both parties signed, field by
      field, and every revocation on an edge from one its own party signed. */
  lemma EveryEdgeVerified(c: Crypto, read: Reader, rows: seq<Row>, ledger: LedgerId)
    requires AllRead(read, rows) && TableMeets(Vouching(c), read, rows)
    ensures AllTraced(c, LedgerRecords(read, rows, ledger), GraphOf(c, read, rows, ledger).edges)
  {
    var records := LedgerRecords(read, rows, ledger);
    LedgerTrustworthy(c, read, rows, ledger);
    DecoderStamps(c);
    ReplayTraced(c, ApplierFor(DecoderFor(c)), DecoderFor(c), records, 0, Edges.GraphValue(ledger, 0, []));
    assert records[0..] == records;
  }

  /** So it is for the tables of all runs in which every client submits verified payloads. */
  lemma EveryRunVerified(c: Crypto, actions: seq<Action>, ledger: LedgerId)
    requires Submits(Vouching(c), actions)
    ensures var k := LedgerKernel(c.hash);
            var rows := Run(k, EMPTY, actions).rows;
            AllRead(k.read, rows) && AllTraced(c, LedgerRecords(k.read, rows, ledger), GraphOf(c, k.read, rows, ledger).edges)
  {
    var k := LedgerKernel(c.hash);
    LedgerKernelSound(c.hash);
    EmptyInv(k);
    RunMeets(Vouching(c), k, EMPTY, actions);
    EveryEdgeVerified(c, k.read, Run(k, EMPTY, actions).rows, ledger);
  }

  // ----- from the graph to a score -----

  /** The hop stands for an endorsement of the ledger that its two ends signed. */
  ghost predicate HopEndorsed(c: Crypto, records: seq<Record>, hop: PathHop) {
    exists i, p :: 0 <= i < |records| && HopStandsFor(c, records[i], p, hop)
  }

  ghost predicate HopStandsFor(c: Crypto, record: Record, p: Accepted, hop: PathHop) {
    && c.verify(p.proposer, ProposalDigest(c, p), p.proposerSignature)
    && c.verify(p.subject, AcceptanceDigest(c, p), p.subjectSignature)
    && record.event.kind == ENDORSEMENT_ACCEPTED && record.event.payload == EncodeAccepted(p)
    && hop.from == p.proposer && hop.to == p.subject && hop.topic == p.topic
    && hop.digest == record.digest && hop.sequence == record.event.sequence
  }

  lemma UsableIsEndorsed(c: Crypto, records: seq<Record>, edges: seq<Edges.Edge>, topic: Bytes, hop: PathHop, at: IdentityKey)
    requires AllTraced(c, records, edges) && Edges.Usable(edges, topic, hop, at)
    ensures HopEndorsed(c, records, hop)
  {
    var k :| 0 <= k < |edges| && edges[k].active && Edges.HopOf(edges[k]) == hop;
    assert Traced(c, records, edges[k]);
    EndorsedHop(c, records, edges[k]);
  }

  lemma EndorsedHop(c: Crypto, records: seq<Record>, e: Edges.Edge)
    requires Endorsed(c, records, e)
    ensures HopEndorsed(c, records, Edges.HopOf(e))
  {
    var i, p :| 0 <= i < |records| && Endorses(c, records[i], p, e);
    assert HopStandsFor(c, records[i], p, Edges.HopOf(e));
  }

  /** Nothing else than verified endorsements of the ledger ever counts towards a score: every hop
      of every contributing path is one, in force. */
  lemma EveryHopVerified(c: Crypto, read: Reader, rows: seq<Row>, ledger: LedgerId, policy: Policy, target: IdentityKey, t: PathTrace)
    requires AllRead(read, rows) && TableMeets(Vouching(c), read, rows) && WithinBounds(policy)
    requires t in PathsFor(GraphOf(c, read, rows, ledger).edges, policy, target)
    ensures forall j :: 0 <= j < |t.hops| ==> HopEndorsed(c, LedgerRecords(read, rows, ledger), t.hops[j])
  {
    var edges, records := GraphOf(c, read, rows, ledger).edges, LedgerRecords(read, rows, ledger);
    EveryEdgeVerified(c, read, rows, ledger);
    PathsExact(edges, policy, target, t);
    forall j | 0 <= j < |t.hops| ensures HopEndorsed(c, records, t.hops[j]) {
      UsableIsEndorsed(c, records, edges, policy.topic, t.hops[j], Origin(t.root, t.hops, j));
    }
  }

  lemma LedgerReadsPositive(h: Hash)
    ensures ReadsPositive(LedgerKernel(h).read)
  {
    forall b | ValidateRecord(h, b).Ok? ensures ValidateRecord(h, b).value.event.sequence > 0 {
      ValidatedIsRecord(h, b);
    }
  }

  /** What the admission protocol writes is what the replay loop needs: for every run the store
      reads back, in order, as one contiguous chain per ledger. */
  lemma ReachableContiguous(h: Hash, actions: seq<Action>, ledger: LedgerId)
    ensures var k := LedgerKernel(h);
            var rows := Run(k, EMPTY, actions).rows;
            ReadsPositive(k.read) && Contiguous(k.read, rows, ledger) && AllRead(k.read, rows)
  {
    LedgerReadsPositive(h);
    ChainUnbroken(h, actions, ledger);
    OfLedgerReads(LedgerKernel(h).read, Run(LedgerKernel(h), EMPTY, actions).rows, ledger);
  }

  // ----- which admitted records project -----

  /** Admission verifies signatures only. A verified endorsement that is next in line projects
      exactly when its keys are P-256 points, its topic is UTF-8 and its digest is new. */
  lemma EndorsementProjects(c: Crypto, g: GraphValue, record: Record, p: Accepted)
    requires VerifyAccepted(c, p) && record.event.kind == ENDORSEMENT_ACCEPTED && record.event.payload == EncodeAccepted(p)
    requires record.event.ledger == g.ledger && record.event.sequence == Successor(g.lastSequence)
    ensures Project(DecoderFor(c), g, record).Ok? <==>
            AcceptedReadable(c, p) && Edges.Find(g.edges, record.digest) == |g.edges|
    ensures Project(DecoderFor(c), g, record).Ok? ==>
              var h := Project(DecoderFor(c), g, record).value;
              && h.ledger == g.ledger && (record.event.sequence > 0 ==> h.lastSequence == record.event.sequence)
              && |h.edges| == |g.edges| + 1 && h.edges[..|g.edges|] == g.edges
              && Stands(h.edges[|g.edges|], record, p)
  {
    AcceptedRoundTrip(c, p);
  }

  /** The edge an endorsement makes when it is applied. */
  ghost predicate Stands(e: Edges.Edge, record: Record, p: Accepted) {
    && e.digest == record.digest && e.sequence == record.event.sequence && e.active && e.revocation.None?
    && e.proposer == p.proposer && e.subject == p.subject && e.topic == p.topic && e.claim == p.claim
    && e.proposedAt == p.proposedAt && e.acceptedAt == p.acceptedAt
  }

  /** The genesis, and any kind the projector does not know, only moves the watermark. */
  lemma OtherKindsProject(c: Crypto, g: GraphValue, record: Record)
    requires record.event.kind != ENDORSEMENT_ACCEPTED && record.event.kind != ENDORSEMENT_REVOKED
    requires record.event.ledger == g.ledger && record.event.sequence == Successor(g.lastSequence)
    ensures Project(DecoderFor(c), g, record) == Ok(g.(lastSequence := record.event.sequence))
  {
  }

  lemma FirstIsGenesis(read: Reader, rows: seq<Row>, ledger: LedgerId)
    requires TableInv(read, rows) && OfLedger(rows, ledger) != []
    ensures var records := LedgerRecords(read, rows, ledger);
            records != [] && IsGenesis(records[0].event) && records[0].event.ledger == ledger
  {
    var chain := OfLedger(rows, ledger);
    assert Chained(chain) && ChainedAt(chain, 0);
    OfLedgerReads(read, rows, ledger);
    OfLedgerMembers(rows, ledger, chain[0]);
    var i :| 0 <= i < |rows| && rows[i] == chain[0];
    assert RowReads(read, rows[i]);
  }

  /** On every reachable ledger that was initialized, a replay from the empty graph gets past the
      genesis record. */
  lemma ReplayTakesGenesis(c: Crypto, actions: seq<Action>, ledger: LedgerId)
    ensures var k := LedgerKernel(c.hash);
            var rows := Run(k, EMPTY, actions).rows;
            OfLedger(rows, ledger) != [] ==>
              Replay(ApplierFor(DecoderFor(c)), Edges.GraphValue(ledger, 0, []), LedgerRecords(k.read, rows, ledger)).1 >= 1
  {
    var k := LedgerKernel(c.hash);
    var rows := Run(k, EMPTY, actions).rows;
    ReachableTable(c.hash, actions);
    if OfLedger(rows, ledger) != [] {
      FirstIsGenesis(k.read, rows, ledger);
      OtherKindsProject(c, Edges.GraphValue(ledger, 0, []), LedgerRecords(k.read, rows, ledger)[0]);
    }
  }

  ghost predicate Revocable(g: GraphValue, target: Digest, role: Uint64, revoker: Bytes) {
    var i := Edges.Find(g.edges, target);
    && i < |g.edges| && g.edges[i].active
    && ((role == ROLE_PROPOSER && revoker == g.edges[i].proposer) || (role == ROLE_SUBJECT && revoker == g.edges[i].subject))
  }

  lemma RevocationEffect(c: Crypto, record: Record, p: Revoked)
    requires VerifyRevoked(c, p) && record.event.payload == EncodeRevoked(p)
    ensures RevokedEffect(c, record).Ok? <==> RevokedReadable(c, p)
    ensures RevokedReadable(c, p) ==>
              RevokedEffect(c, record).value.RevokeEdge? && Asks(RevokedEffect(c, record).value.request, record, p)
  {
    RevokedRoundTrip(c, p);
  }

  ghost predicate Asks(req: Edges.RevokeRequest, record: Record, p: Revoked) {
    && req.target == p.target && req.role == p.role && req.revoker == p.revoker && req.at == p.revokedAt
    && req.digest == record.digest && req.reason == p.reason && req.sequence == record.event.sequence
  }

  /** A verified revocation next in line projects exactly when it is readable and names an active
      edge whose party of that role is the revoker; otherwise every replay stops at it. It then
      changes that edge and nothing else. */
  lemma RevocationProjects(c: Crypto, g: GraphValue, record: Record, p: Revoked)
    requires VerifyRevoked(c, p) && record.event.kind == ENDORSEMENT_REVOKED && record.event.payload == EncodeRevoked(p)
    requires record.event.ledger == g.ledger && record.event.sequence == Successor(g.lastSequence)
    ensures Project(DecoderFor(c), g, record).Ok? <==> RevokedReadable(c, p) && Revocable(g, p.target, p.role, p.revoker)
    ensures Project(DecoderFor(c), g, record).Ok? ==>
              var h, i := Project(DecoderFor(c), g, record).value, Edges.Find(g.edges, p.target);
              && h.ledger == g.ledger && (record.event.sequence > 0 ==> h.lastSequence == record.event.sequence)
              && h.edges == g.edges[i := g.edges[i].(active := false,
                                                      revocation := Some(Edges.Revocation(p.revokedAt, record.digest, p.reason, p.role)))]
  {
    RevocationEffect(c, record, p);
    if RevokedReadable(c, p) { Edges.RevokedExact(g, RevokedEffect(c, record).value.request); }
  }
}

/** Projection of the ledger into the graph, one record at a time or in batches from the store. */
module Projection {
  import opened Prelude
  import opened Ledger
  import opened LedgerStore
  import opened Endorsement
  import Edges
  import opened AttestationGraph

  type GraphValue = Edges.GraphValue

  /** `IdentityKeyFromPublicKey`. */
  function IdentityOf(c: Crypto, key: PublicKey): (r: Result<IdentityKey>) {
    if IsP256(c, key) then Ok(key) else Err(InvalidPublicKey)
  }

  /** What a record asks of the graph. */
  datatype Effect = Advance | AddEdge(edge: Edges.Edge) | RevokeEdge(request: Edges.RevokeRequest)

  type Decoder = Record -> Result<Effect>

  function AcceptedEffect(c: Crypto, record: Record): (r: Result<Effect>) {
    var payload :- DecodeAccepted(c, record.event.payload);
    var proposer :- IdentityOf(c, payload.proposer);
    var subject :- IdentityOf(c, payload.subject);
    Ok(AddEdge(Edges.Edge(record.digest, record.event.sequence, proposer, subject, payload.topic, payload.claim,
                          payload.proposedAt, payload.acceptedAt, true, None)))
  }

  function RevokedEffect(c: Crypto, record: Record): (r: Result<Effect>) {
    var payload :- DecodeRevoked(c, record.event.payload);
    var revoker :- IdentityOf(c, payload.revoker);
    Ok(RevokeEdge(Edges.RevokeRequest(payload.target, revoker, payload.role, payload.revokedAt, record.digest,
                                      payload.reason, record.event.sequence)))
  }

  /** The switch on the event kind. Unknown kinds only move the watermark. */
  function EffectOf(c: Crypto, record: Record): (r: Result<Effect>) {
    if record.event.kind == ENDORSEMENT_ACCEPTED then AcceptedEffect(c, record)
    else if record.event.kind == ENDORSEMENT_REVOKED then RevokedEffect(c, record)
    else Ok(Advance)
  }

  function DecoderFor(c: Crypto): Decoder {
    (record: Record) => EffectOf(c, record)
  }

  function Perform(g: GraphValue, sequence: Uint64, effect: Effect): (r: Result<GraphValue>) {
    match effect
    case Advance => Ok(g.(lastSequence := sequence))
    case AddEdge(edge) => Edges.Added(g, edge)
    case RevokeEdge(request) => Edges.Revoked(g, request)
  }

  /** `ApplyRecord`, on the value of the graph. */
  function Project(decode: Decoder, g: GraphValue, record: Record): (r: Result<GraphValue>) {
    if record.event.ledger != g.ledger then Err(LedgerMismatch)
    else if record.event.sequence != Successor(g.lastSequence) then Err(SequenceBreak)
    else
      var effect :- decode(record);
      Perform(g, record.event.sequence, effect)
  }

  /** An effect is stamped with the sequence of its record, and a new edge is active. */
  ghost predicate Stamps(decode: Decoder) {
    forall record :: decode(record).Ok? ==> Stamped(decode(record).value, record.event.sequence)
  }

  ghost predicate Stamped(effect: Effect, sequence: Uint64) {
    match effect
    case Advance => true
    case AddEdge(edge) => edge.sequence == sequence && edge.active && edge.revocation.None?
    case RevokeEdge(request) => request.sequence == sequence
  }

  lemma DecoderStamps(c: Crypto)
    ensures Stamps(DecoderFor(c))
  {
    forall record | EffectOf(c, record).Ok? ensures Stamped(EffectOf(c, record).value, record.event.sequence) {
      EffectStamped(c, record);
    }
  }

  lemma EffectStamped(c: Crypto, record: Record)
    requires EffectOf(c, record).Ok?
    ensures Stamped(EffectOf(c, record).value, record.event.sequence)
    ensures EffectOf(c, record).value.AddEdge? <==> record.event.kind == ENDORSEMENT_ACCEPTED
    ensures EffectOf(c, record).value.RevokeEdge? <==> record.event.kind == ENDORSEMENT_REVOKED
  {
  }

  type Applier = (GraphValue, Record) -> Result<GraphValue>

  function ApplierFor(decode: Decoder): Applier {
    (g: GraphValue, record: Record) => Project(decode, g, record)
  }

  ghost predicate Implements(apply: Applier, decode: Decoder) {
    Stamps(decode) && forall g, record {:trigger Project(decode, g, record)} :: apply(g, record) == Project(decode, g, record)
  }

  /** Apply records until one fails: the state reached and how many were applied. */
  function Replay(apply: Applier, g: GraphValue, records: seq<Record>): (r: (GraphValue, nat))
    ensures r.1 <= |records|
    decreases |records|
  {
    if records == [] then (g, 0)
    else
      match apply(g, records[0])
      case Err(_) => (g, 0)
      case Ok(g') =>
        var (h, n) := Replay(apply, g', records[1..]);
        (h, n + 1)
  }

  // ----- one step -----

  /** A record that applies moves the watermark to its own sequence, by one. */
  lemma ProjectAdvances(decode: Decoder, g: GraphValue, record: Record)
    requires Stamps(decode) && Project(decode, g, record).Ok? && record.event.sequence > 0
    ensures var g' := Project(decode, g, record).value;
            g'.ledger == g.ledger && g'.lastSequence == record.event.sequence == g.lastSequence + 1
  {
    assert Stamped(decode(record).value, record.event.sequence);
  }

  /** Only the next record of the graph's own ledger is looked at further. */
  lemma ProjectRefuses(decode: Decoder, g: GraphValue, record: Record)
    ensures record.event.ledger != g.ledger ==> Project(decode, g, record) == Err(LedgerMismatch)
    ensures record.event.ledger == g.ledger && record.event.sequence != (g.lastSequence + 1) % 0x1_0000_0000_0000_0000 ==>
              Project(decode, g, record) == Err(SequenceBreak)
    ensures record.event.ledger == g.ledger && record.event.sequence == (g.lastSequence + 1) % 0x1_0000_0000_0000_0000 &&
            decode(record).Err? ==>
              Project(decode, g, record) == Err(decode(record).error)
  {
  }

  /** Whether a record adds an edge or revokes one. */
  function EdgesAdded(decode: Decoder, record: Record): nat {
    if decode(record).Ok? && decode(record).value.AddEdge? then 1 else 0
  }

  function EdgesRevoked(decode: Decoder, record: Record): nat {
    if decode(record).Ok? && decode(record).value.RevokeEdge? then 1 else 0
  }

  lemma ActiveAppend(edges: seq<Edges.Edge>, e: Edges.Edge)
    ensures Active(edges + [e]) == Active(edges) + (if e.active then 1 else 0)
  {
    assert (edges + [e])[..|edges|] == edges;
  }

  lemma {:induction false} ActiveUpdate(edges: seq<Edges.Edge>, i: nat, e: Edges.Edge)
    requires i < |edges| && edges[i].active && !e.active
    ensures Active(edges[i := e]) == Active(edges) - 1
  {
    var init := edges[..|edges| - 1];
    if i == |init| {
      assert edges[i := e][..|init|] == init;
    } else {
      ActiveUpdate(init, i, e);
      assert edges[i := e][..|init|] == init[i := e];
    }
  }

  /** Each applied record adds exactly the edges, and deactivates exactly the edges, of its kind. */
  lemma ProjectCounts(decode: Decoder, g: GraphValue, record: Record)
    requires Stamps(decode) && Project(decode, g, record).Ok?
    ensures var g' := Project(decode, g, record).value;
            && |g'.edges| == |g.edges| + EdgesAdded(decode, record)
            && Active(g'.edges) == Active(g.edges) + EdgesAdded(decode, record) - EdgesRevoked(decode, record)
  {
    assert Stamped(decode(record).value, record.event.sequence);
    match decode(record).value
    case Advance =>
    case AddEdge(edge) =>
      ActiveAppend(g.edges, edge);
    case RevokeEdge(request) =>
      var i := Edges.Find(g.edges, request.target);
      ActiveUpdate(g.edges, i, Edges.RevokedEdge(g.edges[i], request));
  }

  /** Edges are never removed or rewritten, and a revoked one never becomes active again. */
  ghost predicate Evolves(a: seq<Edges.Edge>, b: seq<Edges.Edge>) {
    && |a| <= |b|
    && (forall i :: 0 <= i < |a| ==>
          && b[i].(active := a[i].active, revocation := a[i].revocation) == a[i]
          && (!a[i].active ==> b[i] == a[i]))
  }

  lemma ProjectEvolves(decode: Decoder, g: GraphValue, record: Record)
    requires Project(decode, g, record).Ok?
    ensures Evolves(g.edges, Project(decode, g, record).value.edges)
  {
  }

  /** On a projected graph every edge has a digest and a sequence of its own, none beyond the
      watermark. */
  ghost predicate Projected(g: GraphValue) {
    && Edges.DistinctDigests(g.edges) && Edges.DistinctSequences(g.edges)
    && (forall i :: 0 <= i < |g.edges| ==> g.edges[i].sequence <= g.lastSequence)
  }

  lemma ProjectKeepsProjected(decode: Decoder, g: GraphValue, record: Record)
    requires Stamps(decode) && Projected(g) && Project(decode, g, record).Ok? && record.event.sequence > 0
    ensures Projected(Project(decode, g, record).value)
  {
    ProjectAdvances(decode, g, record);
    assert Stamped(decode(record).value, record.event.sequence);
  }

  // ----- runs -----

  function Added(decode: Decoder, records: seq<Record>): nat {
    if records == [] then 0 else EdgesAdded(decode, records[0]) + Added(decode, records[1..])
  }

  function RevokedCount(decode: Decoder, records: seq<Record>): nat {
    if records == [] then 0 else EdgesRevoked(decode, records[0]) + RevokedCount(decode, records[1..])
  }

  ghost predicate Positive(records: seq<Record>) {
    forall i :: 0 <= i < |records| ==> records[i].event.sequence > 0
  }

  /** After `n` records have applied: the watermark has moved by `n`, the edges are those of the
      accepted endorsements among them, the active ones fewer by the revocations among them. */
  lemma {:induction false} ReplayCounts(apply: Applier, decode: Decoder, g: GraphValue, records: seq<Record>)
    requires Positive(records) && Implements(apply, decode)
    ensures var (h, n) := Replay(apply, g, records);
            && h.ledger == g.ledger && h.lastSequence == g.lastSequence + n
            && |h.edges| == |g.edges| + Added(decode, records[..n])
            && Active(h.edges) == Active(g.edges) + Added(decode, records[..n]) - RevokedCount(decode, records[..n])
    decreases |records|
  {
    if records != [] && Project(decode, g, records[0]).Ok? {
      ProjectAdvances(decode, g, records[0]);
      ProjectCounts(decode, g, records[0]);
      ReplayCounts(apply, decode, Project(decode, g, records[0]).value, records[1..]);
      var n := Replay(apply, g, records).1;
      assert records[..n][1..] == records[1..][..n - 1];
    }
  }

  lemma EvolvesTransitive(a: seq<Edges.Edge>, b: seq<Edges.Edge>, c: seq<Edges.Edge>)
    requires Evolves(a, b) && Evolves(b, c)
    ensures Evolves(a, c)
  {
  }

  /** Over any replay, edges only accumulate and revocations are final. */
  lemma {:induction false} ReplayEvolves(apply: Applier, decode: Decoder, g: GraphValue, records: seq<Record>)
    requires Implements(apply, decode)
    ensures Evolves(g.edges, Replay(apply, g, records).0.edges)
    decreases |records|
  {
    if records != [] && Project(decode, g, records[0]).Ok? {
      var g' := Project(decode, g, records[0]).value;
      ProjectEvolves(decode, g, records[0]);
      ReplayEvolves(apply, decode, g', records[1..]);
      EvolvesTransitive(g.edges, g'.edges, Replay(apply, g', records[1..]).0.edges);
    }
  }

  lemma {:induction false} ReplayKeepsProjected(apply: Applier, decode: Decoder, g: GraphValue, records: seq<Record>)
    requires Positive(records) && Implements(apply, decode) && Projected(g)
    ensures Projected(Replay(apply, g, records).0)
    decreases |records|
  {
    if records != [] && Project(decode, g, records[0]).Ok? {
      ProjectKeepsProjected(decode, g, records[0]);
      ReplayKeepsProjected(apply, decode, Project(decode, g, records[0]).value, records[1..]);
    }
  }

  /** Replay applies the longest prefix that applies: every record of it, and not the next. */
  ghost predicate Stops(apply: Applier, h: GraphValue, records: seq<Record>, n: nat)
    requires n <= |records|
  {
    n == |records| || apply(h, records[n]).Err?
  }

  lemma {:induction false} ReplayStops(apply: Applier, g: GraphValue, records: seq<Record>)
    ensures var (h, n) := Replay(apply, g, records);
            Stops(apply, h, records, n) && Replay(apply, g, records[..n]) == (h, n)
    decreases |records|
  {
    var (h, n) := Replay(apply, g, records);
    if records != [] && apply(g, records[0]).Ok? {
      ReplayStops(apply, apply(g, records[0]).value, records[1..]);
      assert records[..n][1..] == records[1..][..n - 1];
      assert records[..n][0] == records[0];
    } else {
      assert records[..n] == [];
    }
  }

  /** Splitting the records changes nothing: a replay may be interrupted and resumed anywhere. */
  lemma {:induction false} ReplaySplit(apply: Applier, g: GraphValue, a: seq<Record>, b: seq<Record>)
    ensures var (h, n) := Replay(apply, g, a);
            Replay(apply, g, a + b) == if n < |a| then (h, n) else (Replay(apply, h, b).0, n + Replay(apply, h, b).1)
    decreases |a|
  {
    if a == [] {
      assert a + b == b;
    } else {
      assert (a + b)[0] == a[0] && (a + b)[1..] == a[1..] + b;
      if apply(g, a[0]).Ok? { ReplaySplit(apply, apply(g, a[0]).value, a[1..], b); }
    }
  }

  /** What is left of a ledger for a graph at this watermark. */
  function Unapplied(records: seq<Record>, lastSequence: Uint64): seq<Record> {
    if lastSequence <= |records| then records[lastSequence..] else []
  }

  /** Replaying now and again once the ledger has grown is replaying the grown ledger once. */
  lemma ReplayResumes(apply: Applier, decode: Decoder, g: GraphValue, records: seq<Record>, more: seq<Record>)
    requires Positive(records) && Implements(apply, decode)
    ensures var (h, n) := Replay(apply, g, Unapplied(records, g.lastSequence));
            var (k, m) := Replay(apply, h, Unapplied(records + more, h.lastSequence));
            Replay(apply, g, Unapplied(records + more, g.lastSequence)) == (k, n + m)
  {
    ReplayCounts(apply, decode, g, Unapplied(records, g.lastSequence));
    if g.lastSequence <= |records| { ReplayResumesWithin(apply, g, records, more); }
  }

  lemma ReplayResumesWithin(apply: Applier, g: GraphValue, records: seq<Record>, more: seq<Record>)
    requires g.lastSequence <= |records|
    requires var (h, n) := Replay(apply, g, Unapplied(records, g.lastSequence)); h.lastSequence == g.lastSequence + n
    ensures var (h, n) := Replay(apply, g, Unapplied(records, g.lastSequence));
            var (k, m) := Replay(apply, h, Unapplied(records + more, h.lastSequence));
            Replay(apply, g, Unapplied(records + more, g.lastSequence)) == (k, n + m)
  {
    var rest := Unapplied(records, g.lastSequence);
    var (h, n) := Replay(apply, g, rest);
    UnappliedGrows(records, more, g.lastSequence);
    UnappliedLater(records + more, g.lastSequence, h.lastSequence, n);
    ReplayPrefix(apply, g, rest, more);
  }

  lemma UnappliedGrows(records: seq<Record>, more: seq<Record>, last: Uint64)
    requires last <= |records|
    ensures Unapplied(records + more, last) == Unapplied(records, last) + more
  {
  }

  lemma UnappliedLater(records: seq<Record>, last: Uint64, later: Uint64, n: nat)
    requires later == last + n && n <= |Unapplied(records, last)|
    ensures Unapplied(records, later) == Unapplied(records, last)[n..]
  {
  }

  /** What a replay has not applied, it takes up again with whatever follows. */
  lemma ReplayPrefix(apply: Applier, g: GraphValue, rest: seq<Record>, more: seq<Record>)
    ensures var (h, n) := Replay(apply, g, rest);
            var (k, m) := Replay(apply, h, (rest + more)[n..]);
            Replay(apply, g, rest + more) == (k, n + m)
  {
    var all := rest + more;
    var (h, n) := Replay(apply, g, rest);
    ReplayStops(apply, g, rest);
    assert all[..n] == rest[..n];
    assert all[..n] + all[n..] == all;
    ReplaySplit(apply, g, all[..n], all[n..]);
  }

  // ----- the projector -----

  /** A step that succeeds reaches the state it promises; one that fails changes nothing. */
  ghost predicate ApplyOutcome(promised: Result<GraphValue>, before: GraphValue, failure: Option<Error>, after: GraphValue) {
    match promised
    case Ok(g) => failure == None && after == g
    case Err(error) => failure == Some(error) && after == before
  }

  class Projector {
    const graph: Graph
    const decode: Decoder
    const apply: Applier

    constructor (graph: Graph, crypto: Crypto)
      ensures this.graph == graph && decode == DecoderFor(crypto) && apply == ApplierFor(decode)
      ensures Implements(apply, decode)
    {
      this.graph, decode, apply := graph, DecoderFor(crypto), ApplierFor(DecoderFor(crypto));
      DecoderStamps(crypto);
    }

    /** `ApplyRecord`: a record that fails leaves the graph as it was. */
    method ApplyRecord(record: Record) returns (failure: Option<Error>)
      requires graph.Valid() && Implements(apply, decode)
      modifies graph, graph.log
      ensures graph.Valid()
      ensures old(graph.log) <= graph.log
      ensures forall i :: |old(graph.log)| <= i < |graph.log| ==> fresh(graph.log[i])
      ensures ApplyOutcome(apply(old(graph.View()), record), old(graph.View()), failure, graph.View())
    {
      assert apply(graph.View(), record) == Project(decode, graph.View(), record);
      if record.event.ledger != graph.ledger { return Some(LedgerMismatch); }
      if record.event.sequence != Successor(graph.lastSequence) { return Some(SequenceBreak); }
      var effect := decode(record);
      if effect.Err? { return Some(effect.error); }
      assert Stamped(effect.value, record.event.sequence);
      failure := Carry(record.event.sequence, effect.value);
    }

    /** Carry out one effect on the graph. */
    method Carry(sequence: Uint64, effect: Effect) returns (failure: Option<Error>)
      requires graph.Valid() && Stamped(effect, sequence)
      modifies graph, graph.log
      ensures graph.Valid()
      ensures old(graph.log) <= graph.log
      ensures forall i :: |old(graph.log)| <= i < |graph.log| ==> fresh(graph.log[i])
      ensures ApplyOutcome(Perform(old(graph.View()), sequence, effect), old(graph.View()), failure, graph.View())
    {
      match effect
      case Advance =>
        graph.SetLastSequence(sequence);
        failure := None;
      case AddEdge(e) =>
        failure := CarryAdd(e);
      case RevokeEdge(request) =>
        failure := graph.RevokeEdge(request);
    }

    method CarryAdd(e: Edges.Edge) returns (failure: Option<Error>)
      requires graph.Valid() && e.active && e.revocation.None?
      modifies graph
      ensures graph.Valid()
      ensures old(graph.log) <= graph.log
      ensures forall i :: |old(graph.log)| <= i < |graph.log| ==> fresh(graph.log[i])
      ensures ApplyOutcome(Edges.Added(old(graph.View()), e), old(graph.View()), failure, graph.View())
    {
      ghost var g := graph.View();
      var edge := new AttestationEdge(e.digest, e.sequence, e.proposer, e.subject, e.topic, e.claim, e.proposedAt, e.acceptedAt);
      assert edge.Value() == e && graph.View() == g;
      failure := graph.AddEdge(edge);
    }

    /** The inner loop of `ReplayFromStore`. */
    method ApplyAll(records: seq<Record>) returns (applied: nat, failure: Option<Error>)
      requires graph.Valid() && Implements(apply, decode)
      modifies graph, graph.log
      ensures graph.Valid()
      ensures old(graph.log) <= graph.log
      ensures forall i :: |old(graph.log)| <= i < |graph.log| ==> fresh(graph.log[i])
      ensures Replay(apply, old(graph.View()), records) == (graph.View(), applied)
      ensures failure.None? <==> applied == |records|
    {
      applied := 0;
      ghost var whole := Replay(apply, graph.View(), records);
      assert records[0..] == records;
      while applied < |records|
        invariant applied <= |records| && graph.Valid() && Continues(apply, graph.View(), records, applied, whole)
        invariant old(graph.log) <= graph.log
        invariant forall i :: |old(graph.log)| <= i < |graph.log| ==> fresh(graph.log[i])
      {
        var next := applied + 1;
        failure := ApplyAt(records, applied, next, whole);
        if failure.Some? { return; }
        applied := next;
      }
      ContinuesToEnd(apply, graph.View(), records, applied, whole);
      failure := None;
    }

    /** One record of a replay: it takes the replay one further or ends it. */
    method ApplyAt(records: seq<Record>, i: nat, ghost next: nat, ghost whole: (GraphValue, nat)) returns (failure: Option<Error>)
      requires graph.Valid() && Implements(apply, decode)
      requires i < |records| && next == i + 1 && Continues(apply, graph.View(), records, i, whole)
      modifies graph, graph.log
      ensures graph.Valid()
      ensures old(graph.log) <= graph.log
      ensures forall i :: |old(graph.log)| <= i < |graph.log| ==> fresh(graph.log[i])
      ensures failure.None? ==> Continues(apply, graph.View(), records, next, whole)
      ensures failure.Some? ==> whole == (graph.View(), i)
    {
      ghost var g := graph.View();
      ContinuesOrEnds(apply, g, records, i, next, whole);
      failure := ApplyRecord(records[i]);
    }

    /** The scan of one batch. */
    method NextBatch(store: Store, size: int) returns (batch: Result<seq<Record>>)
      requires graph.Valid() && Implements(apply, decode) && ReadsPositive(store.read) && size > 0
      ensures batch.Ok? ==> Positive(batch.value)
      ensures Contiguous(store.read, store.rows, graph.ledger) ==>
                batch.Ok? && IsNextBatch(apply, graph.View(), LedgerRecords(store.read, store.rows, graph.ledger), size, batch.value)
    {
      ghost var from := Successor(graph.lastSequence);
      batch := store.ScanRecords(graph.ledger, Successor(graph.lastSequence), size);
      if batch.Ok? {
        ScanPositive(store.read, SelectFrom(store.rows, graph.ledger, from, size), batch.value);
      }
      if Contiguous(store.read, store.rows, graph.ledger) {
        BatchOnChain(apply, decode, store.read, store.rows, graph.View(), size, batch);
      }
    }

    /** Apply a scanned batch; more are to come if it was full and went through. */
    method ApplyBatch(batch: seq<Record>, size: int) returns (applied: nat, failure: Option<Error>, more: bool)
      requires graph.Valid() && Implements(apply, decode) && Positive(batch) && size > 0
      modifies graph, graph.log
      ensures graph.Valid()
      ensures old(graph.log) <= graph.log
      ensures forall i :: |old(graph.log)| <= i < |graph.log| ==> fresh(graph.log[i])
      ensures graph.lastSequence == old(graph.lastSequence) + applied && (more ==> applied > 0 && failure.None?)
      ensures BatchOutcome(apply, old(graph.View()), batch, size, graph.View(), applied, failure, more)
    {
      ReplayCounts(apply, decode, graph.View(), batch);
      if batch == [] { return 0, None, false; }
      applied, failure := ApplyAll(batch);
      more := failure.None? && |batch| == size;
    }

    /** One turn of the outer loop: others append to the table, then a batch is scanned and applied. */
    method Turn(store: Store, size: int, arrived: seq<Row>, ghost origin: GraphValue, applied: nat)
      returns (total: nat, failure: Option<Error>, more: bool)
      requires graph.Valid() && Implements(apply, decode) && ReadsPositive(store.read) && size > 0
      requires Underway(store, origin, applied, size)
      modifies graph, graph.log, store
      ensures graph.Valid() && store.rows == old(store.rows) + arrived
      ensures old(graph.log) <= graph.log
      ensures forall i :: |old(graph.log)| <= i < |graph.log| ==> fresh(graph.log[i])
      ensures graph.lastSequence - total == old(graph.lastSequence) - applied
      ensures total >= applied && (more ==> total > applied && failure.None?)
      ensures if more then Underway(store, origin, total, size) else Ended(store, origin, total, failure, size)
    {
      Receive(store, arrived, origin, applied, size);
      var scanned := NextBatch(store, size);
      if scanned.Err? { return applied, Some(scanned.error), false; }
      total, failure, more := ApplyScanned(store, scanned.value, size, origin, applied);
    }

    /** Other clients append to the table; how far the replay is does not change. */
    method Receive(store: Store, arrived: seq<Row>, ghost origin: GraphValue, ghost applied: nat, ghost size: nat)
      requires size > 0 && Underway(store, origin, applied, size)
      modifies store
      ensures store.rows == old(store.rows) + arrived && Underway(store, origin, applied, size)
    {
      if Contiguous(store.read, store.rows + arrived, graph.ledger) {
        ReachedGrows(apply, store.read, store.rows, arrived, origin, applied, graph.View());
      }
      store.rows := store.rows + arrived;
    }

    method ApplyScanned(store: Store, batch: seq<Record>, size: int, ghost origin: GraphValue, applied: nat)
      returns (total: nat, failure: Option<Error>, more: bool)
      requires graph.Valid() && Implements(apply, decode) && Positive(batch) && size > 0
      requires Underway(store, origin, applied, size)
      requires Contiguous(store.read, store.rows, graph.ledger) ==>
                 IsNextBatch(apply, graph.View(), LedgerRecords(store.read, store.rows, graph.ledger), size, batch)
      modifies graph, graph.log
      ensures graph.Valid()
      ensures old(graph.log) <= graph.log
      ensures forall i :: |old(graph.log)| <= i < |graph.log| ==> fresh(graph.log[i])
      ensures graph.lastSequence - total == old(graph.lastSequence) - applied
      ensures total >= applied && (more ==> total > applied && failure.None?)
      ensures if more then Underway(store, origin, total, size) else Ended(store, origin, total, failure, size)
    {
      ghost var g := graph.View();
      var count: nat;
      count, failure, more := ApplyBatch(batch, size);
      total := applied + count;
      if Contiguous(store.read, store.rows, graph.ledger) {
        ChainLength(store.read, store.rows, graph.ledger);
        Proceeds(apply, LedgerRecords(store.read, store.rows, graph.ledger), origin, applied, g, batch, size,
                 graph.View(), count, total, failure, more);
      }
    }

    /** `ReplayFromStore`: batch after batch until one comes up short or a record is refused, while
        other clients append rows before every scan. If what the table holds at the last scan is a
        contiguous ledger, the graph is that of the longest prefix of it that applies. */
    method ReplayFromStore(store: Store?, batchSize: int, arrivals: nat -> seq<Row>)
      returns (applied: nat, failure: Option<Error>, scans: nat)
      requires graph.Valid() && Implements(apply, decode) && (store != null ==> ReadsPositive(store.read))
      modifies graph, graph.log, store
      ensures graph.Valid()
      ensures store == null ==> failure == Some(NilStore) && applied == 0 && graph.View() == old(graph.View())
      ensures graph.lastSequence == old(graph.lastSequence) + applied
      ensures store != null ==> store.rows == old(store.rows) + Arrived(arrivals, scans)
      ensures store != null && Contiguous(store.read, store.rows, graph.ledger) ==>
                var size := if batchSize <= 0 then 256 else batchSize;
                ReplayOutcome(apply, LedgerRecords(store.read, store.rows, graph.ledger), old(graph.View()), size,
                              graph.View(), applied, failure)
    {
      if store == null { return 0, Some(NilStore), 0; }
      ReachedAtStart(apply, LedgerRecords(store.read, store.rows, graph.ledger), graph.View());
      applied, failure, scans := ReplayBatches(store, BatchSize(batchSize), arrivals, graph.View());
    }

    method ReplayBatches(store: Store, size: nat, arrivals: nat -> seq<Row>, ghost origin: GraphValue)
      returns (applied: nat, failure: Option<Error>, scans: nat)
      requires graph.Valid() && Implements(apply, decode) && ReadsPositive(store.read) && size > 0
      requires Underway(store, origin, 0, size)
      modifies graph, graph.log, store
      ensures graph.Valid()
      ensures graph.lastSequence == old(graph.lastSequence) + applied
      ensures store.rows == old(store.rows) + Arrived(arrivals, scans)
      ensures Ended(store, origin, applied, failure, size)
    {
      var more := true;
      applied, failure, scans := 0, None, 0;
      assert store.rows == old(store.rows) + Arrived(arrivals, 0);
      while more
        invariant graph.Valid()
        invariant old(graph.log) <= graph.log
        invariant forall i :: |old(graph.log)| <= i < |graph.log| ==> fresh(graph.log[i])
        invariant graph.lastSequence == old(graph.lastSequence) + applied
        invariant store.rows == old(store.rows) + Arrived(arrivals, scans)
        invariant if more then Underway(store, origin, applied, size) else Ended(store, origin, applied, failure, size)
        decreases MAX_UINT64 - graph.lastSequence, more
      {
        var next := scans + 1;
        ArrivedNext(old(store.rows), arrivals, scans, next);
        applied, failure, more := Turn(store, size, arrivals(scans), origin, applied);
        scans := next;
      }
    }

    /** If the ledger is contiguous, a replay from `origin` has applied the first records of it, a
        whole number of batches. */
    ghost predicate Underway(store: Store, origin: GraphValue, applied: nat, size: nat)
      requires size > 0
      reads graph, graph.log, store
    {
      Contiguous(store.read, store.rows, graph.ledger) ==>
        Reached(apply, LedgerRecords(store.read, store.rows, graph.ledger), origin, applied, graph.View()) &&
        Leftover(applied, size) == 0
    }

    ghost predicate Ended(store: Store, origin: GraphValue, applied: nat, failure: Option<Error>, size: nat)
      requires size > 0
      reads graph, graph.log, store
    {
      Contiguous(store.read, store.rows, graph.ledger) ==>
        ReplayOutcome(apply, LedgerRecords(store.read, store.rows, graph.ledger), origin, size, graph.View(), applied, failure)
    }
  }

  // ----- batches -----

  const DEFAULT_BATCH_SIZE: nat := 256

  function BatchSize(requested: int): (size: nat)
    ensures size > 0
  {
    if requested <= 0 then DEFAULT_BATCH_SIZE else requested
  }

  /** What has arrived before the first `scans` scans. */
  function Arrived(arrivals: nat -> seq<Row>, scans: nat): seq<Row> {
    if scans == 0 then [] else Arrived(arrivals, scans - 1) + arrivals(scans - 1)
  }

  lemma ArrivedNext(rows: seq<Row>, arrivals: nat -> seq<Row>, scans: nat, next: nat)
    requires next == scans + 1
    ensures (rows + Arrived(arrivals, scans)) + arrivals(scans) == rows + Arrived(arrivals, next)
  {
  }

  /** A batch of at most `size` of the records still to apply. */
  function Batch(rest: seq<Record>, size: nat): seq<Record> {
    Slice(rest, 0, size)
  }

  /** What whole batches leave over. */
  function Leftover(n: nat, size: nat): (r: nat)
    requires size > 0
    ensures r < size
  {
    if n < size then n else Leftover(n - size, size)
  }

  lemma {:induction false} LeftoverAfterWhole(n: nat, more: nat, size: nat)
    requires more < size && Leftover(n, size) == 0
    ensures Leftover(n + more, size) == more
  {
    if n >= size { LeftoverAfterWhole(n - size, more, size); }
  }

  /** From `origin`, exactly the first `n` unapplied records have been applied. */
  ghost predicate Reached(apply: Applier, records: seq<Record>, origin: GraphValue, n: nat, g: GraphValue) {
    var rest := Unapplied(records, origin.lastSequence);
    n <= |rest| && Replay(apply, origin, rest[..n]) == (g, n) && g.ledger == origin.ledger && g.lastSequence == origin.lastSequence + n
  }

  lemma ReachedAtStart(apply: Applier, records: seq<Record>, origin: GraphValue)
    ensures Reached(apply, records, origin, 0, origin)
  {
  }

  /** What a whole replay does: it reaches the state of the longest prefix that applies. It fails
      exactly when records are left over, or when the watermark is maximal and the last batch was
      full, so that the next scan wraps round to the first record. */
  ghost predicate ReplayOutcome(apply: Applier, records: seq<Record>, origin: GraphValue, size: nat,
                                after: GraphValue, applied: nat, failure: Option<Error>)
    requires size > 0
  {
    var rest := Unapplied(records, origin.lastSequence);
    && Replay(apply, origin, rest) == (after, applied)
    && (failure.Some? <==> applied < |rest| || Wraps(records, after, applied, size))
  }

  ghost predicate Wraps(records: seq<Record>, g: GraphValue, applied: nat, size: nat)
    requires size > 0
  {
    g.lastSequence == MAX_UINT64 && records != [] && Leftover(applied, size) == 0
  }

  /** What applying one batch does. */
  ghost predicate BatchOutcome(apply: Applier, g: GraphValue, batch: seq<Record>, size: nat,
                               after: GraphValue, applied: nat, failure: Option<Error>, more: bool)
  {
    && Replay(apply, g, batch) == (after, applied)
    && (failure.None? <==> applied == |batch|)
    && (more <==> failure.None? && |batch| == size)
  }

  /** What a scan hands to the projector: the next records, or at the maximal watermark some that
      cannot apply. */
  ghost predicate IsNextBatch(apply: Applier, g: GraphValue, records: seq<Record>, size: nat, batch: seq<Record>) {
    if g.lastSequence < MAX_UINT64 then batch == Batch(Unapplied(records, g.lastSequence), size)
    else Replay(apply, g, batch) == (g, 0) && (batch == [] <==> records == [])
  }

  lemma ScanPositive(read: Reader, selected: seq<Row>, records: seq<Record>)
    requires ReadsPositive(read) && ReadAs(read, selected, records)
    ensures Positive(records)
  {
    forall i | 0 <= i < |records| ensures records[i].event.sequence > 0 {
      assert read(selected[i].bytes) == Ok(records[i]);
    }
  }

  lemma ChainLength(read: Reader, rows: seq<Row>, ledger: LedgerId)
    requires Contiguous(read, rows, ledger)
    ensures |LedgerRecords(read, rows, ledger)| <= MAX_UINT64
  {
    var chain := OfLedger(rows, ledger);
    if chain != [] { assert ChainedAt(chain, |chain| - 1); }
  }

  lemma NothingAppliesAtMaximum(apply: Applier, decode: Decoder, g: GraphValue, records: seq<Record>)
    requires Implements(apply, decode) && Positive(records) && g.lastSequence == MAX_UINT64
    ensures Replay(apply, g, records) == (g, 0)
  {
    if records != [] { assert apply(g, records[0]) == Project(decode, g, records[0]); }
  }

  lemma UnappliedSlice(records: seq<Record>, last: Uint64, size: nat)
    requires last < MAX_UINT64
    ensures Slice(records, Start(Successor(last), |records|), size) == Batch(Unapplied(records, last), size)
  {
  }

  /** On a contiguous ledger the scan succeeds and returns the next batch to apply. */
  lemma BatchOnChain(apply: Applier, decode: Decoder, read: Reader, rows: seq<Row>, g: GraphValue, size: nat, scanned: Result<seq<Record>>)
    requires Contiguous(read, rows, g.ledger) && Implements(apply, decode) && ReadsPositive(read) && size > 0
    requires var selected := SelectFrom(rows, g.ledger, Successor(g.lastSequence), size);
             if Readable(read, selected, g.ledger) then scanned.Ok? && ReadAs(read, selected, scanned.value) else scanned.Err?
    ensures scanned.Ok? && IsNextBatch(apply, g, LedgerRecords(read, rows, g.ledger), size, scanned.value)
  {
    var selected, records := SelectFrom(rows, g.ledger, Successor(g.lastSequence), size), LedgerRecords(read, rows, g.ledger);
    ScanOnChain(read, rows, g.ledger, Successor(g.lastSequence), size);
    ReadAsUnique(read, selected, scanned.value, Slice(records, Start(Successor(g.lastSequence), |records|), size));
    if g.lastSequence < MAX_UINT64 {
      UnappliedSlice(records, g.lastSequence, size);
    } else {
      ScanPositive(read, selected, scanned.value);
      NothingAppliesAtMaximum(apply, decode, g, scanned.value);
    }
  }

  /** The applied prefix followed by a batch, as far as that applies, is again an applied prefix. */
  lemma ReachedBatch(apply: Applier, origin: GraphValue, rest: seq<Record>, i: nat, g: GraphValue, batch: seq<Record>, n: nat, total: nat, after: GraphValue)
    requires total == i + n && i + |batch| <= |rest| && batch == rest[i..i + |batch|]
    requires Replay(apply, origin, rest[..i]) == (g, i) && Replay(apply, g, batch) == (after, n)
    ensures total <= |rest| && Replay(apply, origin, rest[..total]) == (after, total)
    ensures n < |batch| ==> apply(after, rest[total]).Err?
  {
    ReplayStops(apply, g, batch);
    ReplaySplit(apply, origin, rest[..i], batch[..n]);
    PrefixAndBatch(rest, i, batch, n, total);
  }

  lemma PrefixAndBatch(rest: seq<Record>, i: nat, batch: seq<Record>, n: nat, total: nat)
    requires total == i + n && i + |batch| <= |rest| && batch == rest[i..i + |batch|] && n <= |batch|
    ensures rest[..i] + batch[..n] == rest[..total]
    ensures n < |batch| ==> batch[n] == rest[total]
  {
  }

  /** A replay whose next record is refused is over. */
  lemma ReachedStops(apply: Applier, origin: GraphValue, rest: seq<Record>, n: nat, g: GraphValue)
    requires n < |rest| && Replay(apply, origin, rest[..n]) == (g, n) && apply(g, rest[n]).Err?
    ensures Replay(apply, origin, rest) == (g, n)
  {
    assert rest[..n] + rest[n..] == rest && rest[n..][0] == rest[n];
    ReplaySplit(apply, origin, rest[..n], rest[n..]);
  }

  lemma ReachedAll(apply: Applier, origin: GraphValue, rest: seq<Record>, n: nat, g: GraphValue)
    requires n == |rest| && Replay(apply, origin, rest[..n]) == (g, n)
    ensures Replay(apply, origin, rest) == (g, n)
  {
    assert rest[..n] == rest;
  }

  /** Where one batch takes a replay. */
  lemma Proceeds(apply: Applier, records: seq<Record>, origin: GraphValue, i: nat, g: GraphValue, batch: seq<Record>, size: nat,
                 after: GraphValue, n: nat, total: nat, failure: Option<Error>, more: bool)
    requires size > 0 && |records| <= MAX_UINT64 && total == i + n
    requires Reached(apply, records, origin, i, g) && Leftover(i, size) == 0
    requires IsNextBatch(apply, g, records, size, batch) && BatchOutcome(apply, g, batch, size, after, n, failure, more)
    requires after.ledger == g.ledger && after.lastSequence == g.lastSequence + n
    ensures if more then Reached(apply, records, origin, total, after) && Leftover(total, size) == 0
            else ReplayOutcome(apply, records, origin, size, after, total, failure)
  {
    if g.lastSequence < MAX_UINT64 {
      ProceedsBelow(apply, records, origin, i, g, batch, size, after, n, total, failure, more);
    } else {
      ReachedAll(apply, origin, Unapplied(records, origin.lastSequence), i, g);
    }
  }

  lemma ProceedsBelow(apply: Applier, records: seq<Record>, origin: GraphValue, i: nat, g: GraphValue, batch: seq<Record>, size: nat,
                      after: GraphValue, n: nat, total: nat, failure: Option<Error>, more: bool)
    requires size > 0 && total == i + n && g.lastSequence < MAX_UINT64
    requires Reached(apply, records, origin, i, g) && Leftover(i, size) == 0
    requires IsNextBatch(apply, g, records, size, batch) && BatchOutcome(apply, g, batch, size, after, n, failure, more)
    requires after.ledger == g.ledger && after.lastSequence == g.lastSequence + n
    ensures if more then Reached(apply, records, origin, total, after) && Leftover(total, size) == 0
            else ReplayOutcome(apply, records, origin, size, after, total, failure)
  {
    var rest := Unapplied(records, origin.lastSequence);
    UnappliedLater(records, origin.lastSequence, g.lastSequence, i);
    ReachedBatch(apply, origin, rest, i, g, batch, n, total, after);
    if n < |batch| {
      ReachedStops(apply, origin, rest, total, after);
    } else if n < size {
      ReachedAll(apply, origin, rest, total, after);
      LeftoverAfterWhole(i, n, size);
    }
  }

  // ----- growth -----

  lemma {:induction false} OfLedgerConcat(rows: seq<Row>, more: seq<Row>, ledger: LedgerId)
    ensures OfLedger(rows + more, ledger) == OfLedger(rows, ledger) + OfLedger(more, ledger)
    decreases |more|
  {
    if more == [] {
      assert rows + more == rows;
    } else {
      OfLedgerConcat(rows, more[..|more| - 1], ledger);
      assert (rows + more)[..|rows + more| - 1] == rows + more[..|more| - 1];
    }
  }

  /** Before rows were appended a contiguous ledger was contiguous, and its records came first. */
  lemma ContiguousBefore(read: Reader, rows: seq<Row>, more: seq<Row>, ledger: LedgerId)
    requires Contiguous(read, rows + more, ledger)
    ensures Contiguous(read, rows, ledger) && LedgerRecords(read, rows, ledger) <= LedgerRecords(read, rows + more, ledger)
  {
    OfLedgerConcat(rows, more, ledger);
    var chain, all := OfLedger(rows, ledger), OfLedger(rows + more, ledger);
    forall i | 0 <= i < |chain| ensures RowReads(read, chain[i]) && ChainedAt(chain, i) {
      assert all[i] == chain[i] && ChainedAt(all, i);
      assert i > 0 ==> all[i - 1] == chain[i - 1];
    }
  }

  lemma ReachedGrows(apply: Applier, read: Reader, rows: seq<Row>, more: seq<Row>, origin: GraphValue, n: nat, g: GraphValue)
    requires Contiguous(read, rows + more, g.ledger)
    requires Contiguous(read, rows, g.ledger) ==> Reached(apply, LedgerRecords(read, rows, g.ledger), origin, n, g)
    ensures Contiguous(read, rows, g.ledger)
    ensures Reached(apply, LedgerRecords(read, rows + more, g.ledger), origin, n, g)
  {
    ContiguousBefore(read, rows, more, g.ledger);
    var fewer, all := LedgerRecords(read, rows, g.ledger), LedgerRecords(read, rows + more, g.ledger);
    assert Unapplied(fewer, origin.lastSequence)[..n] == Unapplied(all, origin.lastSequence)[..n];
  }

  /** A replay that has applied `i` records and reached `g`. */
  ghost predicate Continues(apply: Applier, g: GraphValue, records: seq<Record>, i: nat, whole: (GraphValue, nat))
    requires i <= |records|
  {
    whole == (Replay(apply, g, records[i..]).0, i + Replay(apply, g, records[i..]).1)
  }

  lemma ContinuesToEnd(apply: Applier, g: GraphValue, records: seq<Record>, i: nat, whole: (GraphValue, nat))
    requires i == |records| && Continues(apply, g, records, i, whole)
    ensures whole == (g, i)
  {
  }

  /** The next record either takes the replay one further or ends it. */
  lemma ContinuesOrEnds(apply: Applier, g: GraphValue, records: seq<Record>, i: nat, next: nat, whole: (GraphValue, nat))
    requires i < |records| && next == i + 1 && Continues(apply, g, records, i, whole)
    ensures match apply(g, records[i])
            case Ok(g') => Continues(apply, g', records, next, whole)
            case Err(_) => whole == (g, i)
  {
    assert records[i..][0] == records[i] && records[i..][1..] == records[i + 1..];
  }
}

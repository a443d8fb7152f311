/** The attestation graph as it lives in memory: one digest map and three indexes that share the
    same edge objects. A revocation writes the object once; every index must show it. */
module AttestationGraph {
  import opened Prelude
  import opened Edges
  import Endorsement

  class AttestationEdge {
    const digest: Digest
    const sequence: Uint64
    const proposer: IdentityKey
    const subject: IdentityKey
    const topic: Bytes
    const claim: Bytes
    const proposedAt: Uint64
    const acceptedAt: Uint64
    var isActive: bool
    var revocation: Option<Revocation>

    constructor (digest: Digest, sequence: Uint64, proposer: IdentityKey, subject: IdentityKey, topic: Bytes,
                 claim: Bytes, proposedAt: Uint64, acceptedAt: Uint64)
      ensures Value() == Edge(digest, sequence, proposer, subject, topic, claim, proposedAt, acceptedAt, true, None)
    {
      this.digest, this.sequence, this.proposer, this.subject := digest, sequence, proposer, subject;
      this.topic, this.claim, this.proposedAt, this.acceptedAt := topic, claim, proposedAt, acceptedAt;
      isActive, revocation := true, None;
    }

    ghost function Value(): Edge
      reads this
    {
      Edge(digest, sequence, proposer, subject, topic, claim, proposedAt, acceptedAt, isActive, revocation)
    }
  }

  ghost function Values(log: seq<AttestationEdge>): (edges: seq<Edge>)
    reads log
    ensures |edges| == |log| && forall i :: 0 <= i < |log| ==> edges[i] == log[i].Value()
  {
    seq(|log|, i requires 0 <= i < |log| reads log => log[i].Value())
  }

  /** Whether an index lists an edge: this depends on fields that never change. */
  predicate Indexed(edge: AttestationEdge, index: Index) {
    match index
    case ByProposer(key) => edge.proposer == key
    case BySubject(key) => edge.subject == key
    case ByTopic(topic) => edge.topic == topic
  }

  /** What an index holds under one key. */
  ghost function Select(log: seq<AttestationEdge>, index: Index): seq<AttestationEdge> {
    if log == [] then []
    else
      var last := log[|log| - 1];
      Select(log[..|log| - 1], index) + (if Indexed(last, index) then [last] else [])
  }

  lemma SelectAppend(log: seq<AttestationEdge>, edge: AttestationEdge, index: Index)
    ensures Select(log + [edge], index) == Select(log, index) + (if Indexed(edge, index) then [edge] else [])
  {
    assert (log + [edge])[..|log|] == log;
  }

  lemma {:induction false} SelectMember(log: seq<AttestationEdge>, index: Index, edge: AttestationEdge)
    ensures edge in Select(log, index) <==> edge in log && Indexed(edge, index)
  {
    if log != [] {
      SelectMember(log[..|log| - 1], index, edge);
      assert log == log[..|log| - 1] + [log[|log| - 1]];
    }
  }

  predicate Passes(edge: AttestationEdge, topic: Bytes, activeOnly: bool)
    reads edge
  {
    (activeOnly ==> edge.isActive) && (topic == [] || edge.topic == topic)
  }

  /** The filter loop all three queries run over what an index holds. */
  ghost function Filter(edges: seq<AttestationEdge>, topic: Bytes, activeOnly: bool): seq<AttestationEdge>
    reads edges
  {
    if edges == [] then []
    else
      var last := edges[|edges| - 1];
      Filter(edges[..|edges| - 1], topic, activeOnly) + (if Passes(last, topic, activeOnly) then [last] else [])
  }

  lemma FilterAppend(edges: seq<AttestationEdge>, edge: AttestationEdge, topic: Bytes, activeOnly: bool)
    ensures Filter(edges + [edge], topic, activeOnly) ==
            Filter(edges, topic, activeOnly) + (if Passes(edge, topic, activeOnly) then [edge] else [])
  {
    assert (edges + [edge])[..|edges|] == edges;
  }

  lemma ValuesAppend(edges: seq<AttestationEdge>, edge: AttestationEdge)
    ensures Values(edges + [edge]) == Values(edges) + [edge.Value()]
  {
  }

  lemma QueryAppend(edges: seq<Edge>, edge: Edge, index: Index, topic: Bytes, activeOnly: bool)
    ensures Query(edges + [edge], index, topic, activeOnly) ==
            Query(edges, index, topic, activeOnly) +
            (if Listed(edge, index) && Matches(edge, topic, activeOnly) then [edge] else [])
  {
    assert (edges + [edge])[..|edges|] == edges;
  }

  lemma FilterSelectedStep(log: seq<AttestationEdge>, edge: AttestationEdge, index: Index, topic: Bytes, activeOnly: bool)
    ensures Filter(Select(log + [edge], index), topic, activeOnly) ==
            Filter(Select(log, index), topic, activeOnly) +
            (if Indexed(edge, index) && Passes(edge, topic, activeOnly) then [edge] else [])
  {
    SelectAppend(log, edge, index);
    FilterAppend(Select(log, index), edge, topic, activeOnly);
    assert Select(log, index) + [] == Select(log, index);
  }

  lemma FilterSelectedAppend(log: seq<AttestationEdge>, edge: AttestationEdge, index: Index, topic: Bytes, activeOnly: bool)
    ensures Values(Filter(Select(log + [edge], index), topic, activeOnly)) ==
            Values(Filter(Select(log, index), topic, activeOnly)) +
            (if Listed(edge.Value(), index) && Matches(edge.Value(), topic, activeOnly) then [edge.Value()] else [])
  {
    FilterSelectedStep(log, edge, index, topic, activeOnly);
    ValuesAppend(Filter(Select(log, index), topic, activeOnly), edge);
  }

  /** Filtering an index gives what filtering all edges would. */
  lemma {:induction false} FilterSelected(log: seq<AttestationEdge>, index: Index, topic: Bytes, activeOnly: bool)
    ensures Values(Filter(Select(log, index), topic, activeOnly)) == Query(Values(log), index, topic, activeOnly)
  {
    if log != [] {
      var init, last := log[..|log| - 1], log[|log| - 1];
      assert log == init + [last];
      FilterSelected(init, index, topic, activeOnly);
      FilterSelectedAppend(init, last, index, topic, activeOnly);
      ValuesAppend(init, last);
      QueryAppend(Values(init), last.Value(), index, topic, activeOnly);
    }
  }

  lemma {:induction false} FilterMember(edges: seq<AttestationEdge>, topic: Bytes, activeOnly: bool, edge: AttestationEdge)
    ensures edge in Filter(edges, topic, activeOnly) <==> edge in edges && Passes(edge, topic, activeOnly)
  {
    if edges != [] {
      FilterMember(edges[..|edges| - 1], topic, activeOnly, edge);
      assert edges == edges[..|edges| - 1] + [edges[|edges| - 1]];
    }
  }

  function Lookup<K, V>(m: map<K, seq<V>>, k: K): seq<V> {
    if k in m then m[k] else []
  }

  /** The digest map, the node set and the three indexes of a graph. */
  datatype Indexes = Indexes(
    byDigest: map<Digest, AttestationEdge>,
    nodes: set<IdentityKey>,
    out: map<IdentityKey, seq<AttestationEdge>>,
    into: map<IdentityKey, seq<AttestationEdge>>,
    topics: map<Bytes, seq<AttestationEdge>>)

  function WithEdge(x: Indexes, e: AttestationEdge): Indexes {
    Indexes(
      x.byDigest[e.digest := e],
      x.nodes + {e.proposer} + {e.subject},
      x.out[e.proposer := Lookup(x.out, e.proposer) + [e]],
      x.into[e.subject := Lookup(x.into, e.subject) + [e]],
      x.topics[e.topic := Lookup(x.topics, e.topic) + [e]])
  }

  ghost function Built(log: seq<AttestationEdge>): Indexes {
    if log == [] then Indexes(map[], {}, map[], map[], map[])
    else WithEdge(Built(log[..|log| - 1]), log[|log| - 1])
  }

  /** Every edge was new when it was added. */
  ghost predicate OneEach(log: seq<AttestationEdge>) {
    log != [] ==>
      OneEach(log[..|log| - 1]) && log[|log| - 1].digest !in Built(log[..|log| - 1]).byDigest
  }

  lemma BuiltAppend(log: seq<AttestationEdge>, e: AttestationEdge)
    ensures Built(log + [e]) == WithEdge(Built(log), e)
  {
    assert (log + [e])[..|log|] == log;
  }

  /** What an index holds under a key. */
  ghost function Held(x: Indexes, index: Index): seq<AttestationEdge> {
    match index
    case ByProposer(key) => Lookup(x.out, key)
    case BySubject(key) => Lookup(x.into, key)
    case ByTopic(topic) => Lookup(x.topics, topic)
  }

  lemma HeldWithEdge(x: Indexes, e: AttestationEdge, index: Index)
    ensures Held(WithEdge(x, e), index) == Held(x, index) + (if Indexed(e, index) then [e] else [])
  {
  }

  /** Every index holds, under each key, exactly the edges with that key, in admission order. */
  lemma {:induction false} HeldIsSelected(log: seq<AttestationEdge>, index: Index)
    ensures Held(Built(log), index) == Select(log, index)
  {
    if log != [] {
      HeldIsSelected(log[..|log| - 1], index);
      HeldWithEdge(Built(log[..|log| - 1]), log[|log| - 1], index);
    }
  }

  lemma {:induction false} ByDigestAt(log: seq<AttestationEdge>, i: nat)
    requires OneEach(log) && i < |log|
    ensures log[i].digest in Built(log).byDigest && Built(log).byDigest[log[i].digest] == log[i]
  {
    if i < |log| - 1 { ByDigestAt(log[..|log| - 1], i); }
  }

  lemma {:induction false} ByDigestFrom(log: seq<AttestationEdge>, d: Digest) returns (i: nat)
    requires d in Built(log).byDigest
    ensures i < |log| && log[i].digest == d
  {
    if log[|log| - 1].digest == d { i := |log| - 1; } else { i := ByDigestFrom(log[..|log| - 1], d); }
  }

  /** The digest map holds each edge under its own digest and nothing else. */
  lemma ByDigestExact(log: seq<AttestationEdge>, d: Digest)
    requires OneEach(log)
    ensures d in Built(log).byDigest <==> exists i :: 0 <= i < |log| && log[i].digest == d
    ensures forall i :: 0 <= i < |log| && log[i].digest == d ==>
              d in Built(log).byDigest && Built(log).byDigest[d] == log[i]
  {
    forall i | 0 <= i < |log| && log[i].digest == d
      ensures d in Built(log).byDigest && Built(log).byDigest[d] == log[i]
    {
      ByDigestAt(log, i);
    }
    if d in Built(log).byDigest { var i := ByDigestFrom(log, d); }
  }

  lemma {:induction false} ByDigestCount(log: seq<AttestationEdge>)
    requires OneEach(log)
    ensures |Built(log).byDigest| == |log|
  {
    if log != [] {
      var init, last := log[..|log| - 1], log[|log| - 1];
      assert forall i :: 0 <= i < |init| ==> init[i] == log[i];
      ByDigestCount(init);
      ByDigestExact(init, last.digest);
      assert Built(log).byDigest.Keys == Built(init).byDigest.Keys + {last.digest};
    }
  }

  /** The nodes are the parties of the edges. */
  lemma {:induction false} NodesExact(log: seq<AttestationEdge>, k: IdentityKey)
    ensures k in Built(log).nodes <==> exists i :: 0 <= i < |log| && (log[i].proposer == k || log[i].subject == k)
  {
    if log != [] {
      var init, last := log[..|log| - 1], log[|log| - 1];
      NodesExact(init, k);
      assert forall i :: 0 <= i < |init| ==> init[i] == log[i];
      assert last == log[|log| - 1];
    }
  }

  lemma OneEachAppend(log: seq<AttestationEdge>, e: AttestationEdge)
    requires OneEach(log) && e.digest !in Built(log).byDigest
    ensures OneEach(log + [e])
  {
    assert (log + [e])[..|log|] == log;
  }

  lemma {:induction false} DigestsDiffer(log: seq<AttestationEdge>, i: nat, j: nat)
    requires OneEach(log) && i < j < |log|
    ensures log[i].digest != log[j].digest
  {
    var init := log[..|log| - 1];
    if j == |init| {
      assert init[i] == log[i];
      ByDigestExact(init, log[j].digest);
    } else {
      DigestsDiffer(init, i, j);
    }
  }

  lemma ValuesDistinct(log: seq<AttestationEdge>)
    requires OneEach(log)
    ensures DistinctDigests(Values(log))
  {
    forall i, j | 0 <= i < j < |log| ensures Values(log)[i].digest != Values(log)[j].digest {
      DigestsDiffer(log, i, j);
    }
  }

  /** What a call of `AddEdge` did, against the value of the graph before it. */
  ghost predicate AddOutcome(before: GraphValue, edge: Edge, failure: Option<Error>, after: GraphValue) {
    match Added(before, edge)
    case Ok(g) => failure == None && after == g
    case Err(error) => failure == Some(error) && after == before
  }

  ghost predicate RevokeOutcome(before: GraphValue, req: RevokeRequest, failure: Option<Error>, after: GraphValue) {
    match Revoked(before, req)
    case Ok(g) => failure == None && after == g
    case Err(error) => failure == Some(error) && after == before
  }

  /** An active edge the request names, by the party whose role it claims. */
  ghost predicate MayRevoke(edge: AttestationEdge, req: RevokeRequest)
    reads edge
  {
    && edge.digest == req.target && edge.isActive
    && ((req.role == Endorsement.ROLE_PROPOSER && req.revoker == edge.proposer) ||
        (req.role == Endorsement.ROLE_SUBJECT && req.revoker == edge.subject))
  }

  /** `r` lists edges of the log in the order they were added, none twice. */
  ghost predicate InLogOrder(log: seq<AttestationEdge>, r: seq<AttestationEdge>) {
    forall i, j, m, n :: 0 <= i < j < |r| && 0 <= m < |log| && 0 <= n < |log| && log[m] == r[i] && log[n] == r[j] ==> m < n
  }

  lemma OrderSkips(log: seq<AttestationEdge>, e: AttestationEdge, r: seq<AttestationEdge>)
    requires InLogOrder(log, r) && e !in r
    ensures InLogOrder(log + [e], r)
  {
    var all := log + [e];
    forall i, j, m, n | 0 <= i < j < |r| && 0 <= m < |all| && 0 <= n < |all| && all[m] == r[i] && all[n] == r[j] ensures m < n {
      assert r[i] in r && r[j] in r;
    }
  }

  lemma OrderTakes(log: seq<AttestationEdge>, e: AttestationEdge, r: seq<AttestationEdge>)
    requires InLogOrder(log, r) && e !in r && forall k :: 0 <= k < |log| ==> log[k] != e
    ensures InLogOrder(log + [e], r + [e])
  {
    OrderSkips(log, e, r);
    var all, s := log + [e], r + [e];
    forall i, j, m, n | 0 <= i < j < |s| && 0 <= m < |all| && 0 <= n < |all| && all[m] == s[i] && all[n] == s[j] ensures m < n {
      assert s[i] == r[i] && r[i] in r;
      assert j < |r| ==> s[j] == r[j];
      assert j == |r| ==> n == |log|;
    }
  }

  lemma OrderStep(log: seq<AttestationEdge>, init: seq<AttestationEdge>, e: AttestationEdge,
                  r: seq<AttestationEdge>, next: seq<AttestationEdge>)
    requires log == init + [e] && InLogOrder(init, r) && e !in r && forall k :: 0 <= k < |init| ==> init[k] != e
    requires next == r || next == r + [e]
    ensures InLogOrder(log, next)
  {
    if next == r { OrderSkips(init, e, r); } else { OrderTakes(init, e, r); }
  }

  lemma FrontAndLast(log: seq<AttestationEdge>)
    requires log != []
    ensures log == log[..|log| - 1] + [log[|log| - 1]]
  {
  }

  lemma {:induction false} FilterSelectedOrder(log: seq<AttestationEdge>, index: Index, topic: Bytes, activeOnly: bool)
    requires OneEach(log)
    ensures InLogOrder(log, Filter(Select(log, index), topic, activeOnly))
  {
    if log != [] {
      var init, last := log[..|log| - 1], log[|log| - 1];
      var r := Filter(Select(init, index), topic, activeOnly);
      FrontAndLast(log);
      FilterSelectedOrder(init, index, topic, activeOnly);
      NotBefore(init, last, index, topic, activeOnly);
      FilterSelectedStep(init, last, index, topic, activeOnly);
      OrderStep(log, init, last, r, Filter(Select(log, index), topic, activeOnly));
    }
  }

  lemma NotBefore(log: seq<AttestationEdge>, e: AttestationEdge, index: Index, topic: Bytes, activeOnly: bool)
    requires OneEach(log) && e.digest !in Built(log).byDigest
    ensures (forall k :: 0 <= k < |log| ==> log[k] != e) && e !in Filter(Select(log, index), topic, activeOnly)
  {
    ByDigestExact(log, e.digest);
    FilterMember(Select(log, index), topic, activeOnly, e);
    SelectMember(log, index, e);
  }

  class Graph {
    const ledger: LedgerId
    var lastSequence: Uint64
    var nodes: set<IdentityKey>
    var edgesByDigest: map<Digest, AttestationEdge>
    var outEdges: map<IdentityKey, seq<AttestationEdge>>
    var inEdges: map<IdentityKey, seq<AttestationEdge>>
    var topicIndex: map<Bytes, seq<AttestationEdge>>

    /** Every edge, in the order it was added. */
    ghost var log: seq<AttestationEdge>

    constructor (ledger: LedgerId)
      ensures Valid() && this.ledger == ledger && log == []
      ensures View() == GraphValue(ledger, 0, [])
    {
      this.ledger, lastSequence, nodes := ledger, 0, {};
      edgesByDigest, outEdges, inEdges, topicIndex, log := map[], map[], map[], map[], [];
    }

    ghost predicate Valid()
      reads this
    {
      OneEach(log) && Indexes(edgesByDigest, nodes, outEdges, inEdges, topicIndex) == Built(log)
    }

    ghost function View(): (g: GraphValue)
      reads this, log
    {
      GraphValue(ledger, lastSequence, Values(log))
    }

    lemma FoundByDigest(digest: Digest)
      requires Valid()
      ensures digest in edgesByDigest <==> Find(View().edges, digest) < |log|
      ensures digest in edgesByDigest ==> edgesByDigest[digest] == log[Find(View().edges, digest)]
    {
      var i := Find(View().edges, digest);
      ByDigestExact(log, digest);
      if i < |log| { assert View().edges[i].digest == log[i].digest == digest; }
      if digest in edgesByDigest {
        var j :| 0 <= j < |log| && log[j].digest == digest;
        assert View().edges[j].digest == digest;
      }
    }

    method SetLastSequence(sequence: Uint64)
      requires Valid()
      modifies this`lastSequence
      ensures Valid() && View() == old(View()).(lastSequence := sequence)
    {
      lastSequence := sequence;
    }

    /** Move the watermark forward, never back. */
    method Raise(sequence: Uint64)
      requires Valid()
      modifies this`lastSequence
      ensures Valid() && View() == old(View()).(lastSequence := Later(old(lastSequence), sequence))
    {
      if sequence > lastSequence { lastSequence := sequence; }
    }

    method AddEdge(edge: AttestationEdge?) returns (failure: Option<Error>)
      requires Valid()
      modifies this
      ensures Valid()
      ensures edge == null ==> failure == Some(NilEdge) && View() == old(View()) && log == old(log)
      ensures edge != null ==> AddOutcome(old(View()), old(edge.Value()), failure, View())
      ensures edge != null ==> (failure.None? <==> forall e :: e in old(log) ==> e.digest != edge.digest)
      ensures edge != null && failure.None? ==>
                lastSequence == if edge.sequence > old(lastSequence) then edge.sequence else old(lastSequence)
      ensures edge != null ==> log == old(log) + (if failure.None? then [edge] else [])
    {
      if edge == null { return Some(NilEdge); }
      FoundByDigest(edge.digest);
      ByDigestExact(log, edge.digest);
      if edge.digest in edgesByDigest { return Some(DuplicateEdge); }
      ValuesAppend(log, edge);
      Record(edge);
      Raise(edge.sequence);
      return None;
    }

    /** The writes of `AddEdge` to the digest map, the node set and the three indexes. */
    method Record(edge: AttestationEdge)
      requires Valid() && edge.digest !in edgesByDigest
      modifies this`edgesByDigest, this`nodes, this`outEdges, this`inEdges, this`topicIndex, this`log
      ensures Valid() && log == old(log) + [edge]
      ensures Values(log) == old(Values(log + [edge]))
    {
      ghost var next := log + [edge];
      OneEachAppend(log, edge);
      BuiltAppend(log, edge);
      WriteIndexes(edge);
      log := next;
      assert Values(next) == old(Values(log + [edge]));
    }

    method WriteIndexes(edge: AttestationEdge)
      modifies this`edgesByDigest, this`nodes, this`outEdges, this`inEdges, this`topicIndex
      ensures Indexes(edgesByDigest, nodes, outEdges, inEdges, topicIndex) ==
              WithEdge(old(Indexes(edgesByDigest, nodes, outEdges, inEdges, topicIndex)), edge)
    {
      edgesByDigest := edgesByDigest[edge.digest := edge];
      nodes := nodes + {edge.proposer} + {edge.subject};
      outEdges := outEdges[edge.proposer := Lookup(outEdges, edge.proposer) + [edge]];
      inEdges := inEdges[edge.subject := Lookup(inEdges, edge.subject) + [edge]];
      topicIndex := topicIndex[edge.topic := Lookup(topicIndex, edge.topic) + [edge]];
    }

    /** Marks an edge revoked through the digest map. The three indexes are not touched. */
    method RevokeEdge(req: RevokeRequest) returns (failure: Option<Error>)
      requires Valid()
      modifies this`lastSequence, log
      ensures Valid() && log == old(log)
      ensures RevokeOutcome(old(View()), req, failure, View())
      ensures failure.None? <==> exists i :: 0 <= i < |log| && old(MayRevoke(log[i], req))
    {
      failure := Vet(req);
      if failure.Some? { return; }
      Revoke(req);
    }

    /** The checks of `RevokeEdge`, in order. */
    method Vet(req: RevokeRequest) returns (failure: Option<Error>)
      requires Valid()
      ensures failure.None? <==> exists i :: 0 <= i < |log| && MayRevoke(log[i], req)
      ensures failure.Some? ==> Revoked(View(), req) == Err(failure.value)
      ensures failure.None? ==> Revoked(View(), req).Ok? && req.target in edgesByDigest
    {
      FoundByDigest(req.target);
      RevokableFound(req);
      if req.target !in edgesByDigest { return Some(EdgeNotFound); }
      failure := VetEdge(edgesByDigest[req.target], req, Find(View().edges, req.target));
    }

    method VetEdge(edge: AttestationEdge, req: RevokeRequest, ghost at: nat) returns (failure: Option<Error>)
      requires at < |log| && log[at] == edge && at == Find(View().edges, req.target)
      ensures failure.None? <==> MayRevoke(edge, req)
      ensures failure.Some? ==> Revoked(View(), req) == Err(failure.value)
      ensures failure.None? ==> Revoked(View(), req).Ok?
    {
      assert View().edges[at] == edge.Value();
      if !edge.isActive { return Some(EdgeAlreadyRevoked); }
      failure := Authorize(edge, req);
    }

    /** The writes of `RevokeEdge`. */
    method Revoke(req: RevokeRequest)
      requires Valid() && Revoked(View(), req).Ok? && req.target in edgesByDigest
      modifies this`lastSequence, log
      ensures Valid() && log == old(log) && View() == Revoked(old(View()), req).value
    {
      FoundByDigest(req.target);
      ghost var at := Find(View().edges, req.target);
      RevokedAs(View(), req, at);
      WriteRevocation(edgesByDigest[req.target], req, at);
      Raise(req.sequence);
    }

    /** The edges a request may revoke are the one the digest map gives for it, or none. */
    lemma RevokableFound(req: RevokeRequest)
      requires Valid()
      ensures (exists i :: 0 <= i < |log| && MayRevoke(log[i], req)) <==>
              req.target in edgesByDigest && MayRevoke(edgesByDigest[req.target], req)
    {
      ByDigestExact(log, req.target);
    }

    /** The switch on the revoker's role. */
    method Authorize(edge: AttestationEdge, req: RevokeRequest) returns (failure: Option<Error>)
      ensures failure.None? <==>
              || (req.role == Endorsement.ROLE_PROPOSER && req.revoker == edge.proposer)
              || (req.role == Endorsement.ROLE_SUBJECT && req.revoker == edge.subject)
      ensures failure == Some(InvalidRole) <==> req.role != Endorsement.ROLE_PROPOSER && req.role != Endorsement.ROLE_SUBJECT
      ensures failure.Some? ==> failure.value == InvalidRole || failure.value == UnauthorizedRevoker
    {
      if req.role == Endorsement.ROLE_PROPOSER {
        if req.revoker != edge.proposer { return Some(UnauthorizedRevoker); }
      } else if req.role == Endorsement.ROLE_SUBJECT {
        if req.revoker != edge.subject { return Some(UnauthorizedRevoker); }
      } else {
        return Some(InvalidRole);
      }
      return None;
    }

    /** The writes of a revocation; only this edge's value changes. */
    method WriteRevocation(edge: AttestationEdge, req: RevokeRequest, ghost at: nat)
      requires Valid() && at < |log| && log[at] == edge
      modifies edge
      ensures View() == old(View()).(edges := old(View().edges)[at := RevokedEdge(old(View().edges)[at], req)])
    {
      ghost var before := Values(log);
      ValuesDistinct(log);
      edge.isActive := false;
      edge.revocation := Some(Revocation(req.at, req.digest, req.reason, req.role));
      assert Values(log) == before[at := RevokedEdge(before[at], req)];
    }

    /** The loop of the queries. */
    method FilterEdges(edges: seq<AttestationEdge>, topic: Bytes, activeOnly: bool) returns (r: seq<AttestationEdge>)
      ensures r == Filter(edges, topic, activeOnly)
    {
      r := [];
      for i := 0 to |edges|
        invariant r == Filter(edges[..i], topic, activeOnly)
      {
        assert edges[..i + 1][..i] == edges[..i];
        if (activeOnly && !edges[i].isActive) || (topic != [] && edges[i].topic != topic) { continue; }
        r := r + [edges[i]];
      }
      assert edges[..|edges|] == edges;
    }

    method OutEdges(proposer: IdentityKey, topic: Bytes, activeOnly: bool) returns (r: seq<AttestationEdge>)
      requires Valid()
      ensures Values(r) == Query(View().edges, ByProposer(proposer), topic, activeOnly) && InLogOrder(log, r)
      ensures forall e :: e in r <==> e in log && e.proposer == proposer && (topic == [] || e.topic == topic) && (activeOnly ==> e.isActive)
    {
      HeldIsSelected(log, ByProposer(proposer));
      r := QueryIndex(Lookup(outEdges, proposer), ByProposer(proposer), topic, activeOnly);
    }

    method InEdges(subject: IdentityKey, topic: Bytes, activeOnly: bool) returns (r: seq<AttestationEdge>)
      requires Valid()
      ensures Values(r) == Query(View().edges, BySubject(subject), topic, activeOnly) && InLogOrder(log, r)
      ensures forall e :: e in r <==> e in log && e.subject == subject && (topic == [] || e.topic == topic) && (activeOnly ==> e.isActive)
    {
      HeldIsSelected(log, BySubject(subject));
      r := QueryIndex(Lookup(inEdges, subject), BySubject(subject), topic, activeOnly);
    }

    method TopicEdges(topic: Bytes, activeOnly: bool) returns (r: seq<AttestationEdge>)
      requires Valid()
      ensures Values(r) == Query(View().edges, ByTopic(topic), [], activeOnly) && InLogOrder(log, r)
      ensures forall e :: e in r <==> e in log && e.topic == topic && (activeOnly ==> e.isActive)
    {
      HeldIsSelected(log, ByTopic(topic));
      r := QueryIndex(Lookup(topicIndex, topic), ByTopic(topic), [], activeOnly);
    }

    method QueryIndex(held: seq<AttestationEdge>, ghost index: Index, topic: Bytes, activeOnly: bool)
      returns (r: seq<AttestationEdge>)
      requires Valid() && held == Select(log, index)
      ensures Values(r) == Query(View().edges, index, topic, activeOnly) && InLogOrder(log, r)
      ensures forall e :: e in r <==> e in log && Indexed(e, index) && Passes(e, topic, activeOnly)
    {
      r := FilterEdges(held, topic, activeOnly);
      FilterSelected(log, index, topic, activeOnly);
      FilterSelectedOrder(log, index, topic, activeOnly);
      forall e ensures e in r <==> e in log && Indexed(e, index) && Passes(e, topic, activeOnly) {
        FilterMember(held, topic, activeOnly, e);
        SelectMember(log, index, e);
      }
    }

    method EdgeCount() returns (n: nat)
      requires Valid()
      ensures n == |View().edges|
    {
      ByDigestCount(log);
      n := |edgesByDigest|;
    }

    method ActiveEdgeCount() returns (n: nat)
      requires Valid()
      ensures n == Active(View().edges)
    {
      n := 0;
      var left := edgesByDigest.Keys;
      while left != {}
        invariant left <= edgesByDigest.Keys
        invariant n + ActiveIn(log, left) == ActiveIn(log, edgesByDigest.Keys)
        decreases |left|
      {
        var d :| d in left;
        ByDigestExact(log, d);
        ActiveWithout(log, left, d);
        if edgesByDigest[d].isActive { n := n + 1; }
        left := left - {d};
      }
      ActiveNone(log);
      forall i | 0 <= i < |log| ensures log[i].digest in edgesByDigest { ByDigestExact(log, log[i].digest); }
      ActiveAll(log, edgesByDigest.Keys);
    }
  }

  // ----- counting -----

  function Active(edges: seq<Edge>): nat {
    if edges == [] then 0
    else Active(edges[..|edges| - 1]) + (if edges[|edges| - 1].active then 1 else 0)
  }

  ghost function ActiveIn(log: seq<AttestationEdge>, digests: set<Digest>): nat
    reads log
  {
    if log == [] then 0
    else
      var last := log[|log| - 1];
      ActiveIn(log[..|log| - 1], digests) + (if last.digest in digests && last.isActive then 1 else 0)
  }

  lemma {:induction false} ActiveNone(log: seq<AttestationEdge>)
    ensures ActiveIn(log, {}) == 0
  {
    if log != [] { ActiveNone(log[..|log| - 1]); }
  }

  lemma {:induction false} ActiveAll(log: seq<AttestationEdge>, digests: set<Digest>)
    requires forall i :: 0 <= i < |log| ==> log[i].digest in digests
    ensures ActiveIn(log, digests) == Active(Values(log))
  {
    if log != [] {
      ActiveAll(log[..|log| - 1], digests);
      assert Values(log)[..|log| - 1] == Values(log[..|log| - 1]);
    }
  }

  lemma {:induction false} ActiveAbsent(log: seq<AttestationEdge>, digests: set<Digest>, d: Digest)
    requires forall i :: 0 <= i < |log| ==> log[i].digest != d
    ensures ActiveIn(log, digests) == ActiveIn(log, digests - {d})
  {
    if log != [] { ActiveAbsent(log[..|log| - 1], digests, d); }
  }

  lemma {:induction false} ActiveWithout(log: seq<AttestationEdge>, digests: set<Digest>, d: Digest)
    requires OneEach(log)
    requires d in digests && exists i :: 0 <= i < |log| && log[i].digest == d
    ensures exists i :: 0 <= i < |log| && log[i].digest == d &&
              ActiveIn(log, digests) == ActiveIn(log, digests - {d}) + (if log[i].isActive then 1 else 0)
  {
    var init, last := log[..|log| - 1], log[|log| - 1];
    var i :| 0 <= i < |log| && log[i].digest == d;
    if last.digest == d {
      forall j | 0 <= j < |init| ensures init[j].digest != d { DigestsDiffer(log, j, |log| - 1); }
      ActiveAbsent(init, digests, d);
      assert log[|log| - 1].digest == d;
    } else {
      assert init[i].digest == d;
      ActiveWithout(init, digests, d);
      assert log[i] == init[i];
    }
  }
}

/** The attestation graph as a value: its edges in the order they were admitted. */
module Edges {
  import opened Prelude
  import opened TrustPaths
  import opened Score
  import Endorsement

  datatype Revocation = Revocation(at: Uint64, digest: Digest, reason: Bytes, role: Uint64)

  datatype Edge = Edge(
    digest: Digest,
    sequence: Uint64,
    proposer: IdentityKey,
    subject: IdentityKey,
    topic: Bytes,
    claim: Bytes,
    proposedAt: Uint64,
    acceptedAt: Uint64,
    active: bool,
    revocation: Option<Revocation>)

  datatype GraphValue = GraphValue(ledger: LedgerId, lastSequence: Uint64, edges: seq<Edge>)

  function Later(a: Uint64, b: Uint64): Uint64 {
    if b > a then b else a
  }

  /** Where the edge with this digest stands, or the number of edges. */
  function Find(edges: seq<Edge>, digest: Digest): (i: nat)
    ensures i <= |edges|
    ensures i < |edges| ==> edges[i].digest == digest
    ensures forall j :: 0 <= j < i ==> edges[j].digest != digest
  {
    if edges == [] || edges[0].digest == digest then 0 else 1 + Find(edges[1..], digest)
  }

  ghost predicate DistinctDigests(edges: seq<Edge>) {
    forall i, j :: 0 <= i < j < |edges| ==> edges[i].digest != edges[j].digest
  }

  ghost predicate DistinctSequences(edges: seq<Edge>) {
    forall i, j :: 0 <= i < j < |edges| ==> edges[i].sequence != edges[j].sequence
  }

  /** `AddEdge`. */
  function Added(g: GraphValue, edge: Edge): (r: Result<GraphValue>) {
    if Find(g.edges, edge.digest) < |g.edges| then Err(DuplicateEdge)
    else Ok(g.(edges := g.edges + [edge], lastSequence := Later(g.lastSequence, edge.sequence)))
  }

  datatype RevokeRequest = RevokeRequest(
    target: Digest, revoker: IdentityKey, role: Uint64, at: Uint64, digest: Digest, reason: Bytes, sequence: Uint64)

  /** The party that may revoke under a role. */
  function Entitled(edge: Edge, role: Uint64): (r: Option<IdentityKey>) {
    if role == Endorsement.ROLE_PROPOSER then Some(edge.proposer)
    else if role == Endorsement.ROLE_SUBJECT then Some(edge.subject)
    else None
  }

  function RevokedEdge(edge: Edge, req: RevokeRequest): Edge {
    edge.(active := false, revocation := Some(Revocation(req.at, req.digest, req.reason, req.role)))
  }

  /** `RevokeEdge`. */
  function Revoked(g: GraphValue, req: RevokeRequest): (r: Result<GraphValue>) {
    var i := Find(g.edges, req.target);
    if i == |g.edges| then Err(EdgeNotFound)
    else if !g.edges[i].active then Err(EdgeAlreadyRevoked)
    else
      match Entitled(g.edges[i], req.role)
      case None => Err(InvalidRole)
      case Some(party) =>
        if req.revoker != party then Err(UnauthorizedRevoker)
        else Ok(g.(edges := g.edges[i := RevokedEdge(g.edges[i], req)],
                   lastSequence := Later(g.lastSequence, req.sequence)))
  }

  lemma RevokedAs(g: GraphValue, req: RevokeRequest, at: nat)
    requires at == Find(g.edges, req.target) && Revoked(g, req).Ok?
    ensures at < |g.edges|
    ensures Revoked(g, req).value ==
            g.(edges := g.edges[at := RevokedEdge(g.edges[at], req)]).(lastSequence := Later(g.lastSequence, req.sequence))
  {
  }

  /** When each outcome of a revocation comes about, and what a success writes. */
  lemma RevokedExact(g: GraphValue, req: RevokeRequest)
    ensures var r, i := Revoked(g, req), Find(g.edges, req.target);
            && (r == Err(EdgeNotFound) <==> forall j :: 0 <= j < |g.edges| ==> g.edges[j].digest != req.target)
            && (r == Err(EdgeAlreadyRevoked) <==> i < |g.edges| && !g.edges[i].active)
            && (r == Err(InvalidRole) <==>
                i < |g.edges| && g.edges[i].active && req.role != Endorsement.ROLE_PROPOSER && req.role != Endorsement.ROLE_SUBJECT)
            && (r.Ok? <==>
                && i < |g.edges| && g.edges[i].active
                && ((req.role == Endorsement.ROLE_PROPOSER && req.revoker == g.edges[i].proposer) ||
                    (req.role == Endorsement.ROLE_SUBJECT && req.revoker == g.edges[i].subject)))
            && (r.Ok? ==>
                && r.value.edges == g.edges[i := g.edges[i].(active := false,
                                                              revocation := Some(Revocation(req.at, req.digest, req.reason, req.role)))]
                && r.value.ledger == g.ledger
                && r.value.lastSequence == if req.sequence > g.lastSequence then req.sequence else g.lastSequence)
  {
  }

  // ----- queries -----

  /** The three secondary indexes of the graph. */
  datatype Index = ByProposer(key: IdentityKey) | BySubject(key: IdentityKey) | ByTopic(topic: Bytes)

  predicate Listed(edge: Edge, index: Index) {
    match index
    case ByProposer(key) => edge.proposer == key
    case BySubject(key) => edge.subject == key
    case ByTopic(topic) => edge.topic == topic
  }

  predicate Matches(edge: Edge, topic: Bytes, activeOnly: bool) {
    (activeOnly ==> edge.active) && (topic == [] || edge.topic == topic)
  }

  /** What a query returns: the listed, matching edges in admission order. */
  function Query(edges: seq<Edge>, index: Index, topic: Bytes, activeOnly: bool): (r: seq<Edge>) {
    if edges == [] then []
    else
      var last := edges[|edges| - 1];
      Query(edges[..|edges| - 1], index, topic, activeOnly) +
      (if Listed(last, index) && Matches(last, topic, activeOnly) then [last] else [])
  }

  lemma {:induction false} QueryExact(edges: seq<Edge>, index: Index, topic: Bytes, activeOnly: bool, e: Edge)
    ensures e in Query(edges, index, topic, activeOnly) <==>
            e in edges && Listed(e, index) && Matches(e, topic, activeOnly)
  {
    if edges != [] {
      QueryExact(edges[..|edges| - 1], index, topic, activeOnly, e);
      assert edges == edges[..|edges| - 1] + [edges[|edges| - 1]];
    }
  }

  /** Whatever sets edges apart still sets the ones a query returns apart. */
  lemma {:induction false} QueryDistinct(edges: seq<Edge>, index: Index, topic: Bytes, activeOnly: bool)
    ensures DistinctDigests(edges) ==> DistinctDigests(Query(edges, index, topic, activeOnly))
    ensures DistinctSequences(edges) ==> DistinctSequences(Query(edges, index, topic, activeOnly))
  {
    if edges != [] {
      var init, last := edges[..|edges| - 1], edges[|edges| - 1];
      QueryDistinct(init, index, topic, activeOnly);
      var q := Query(init, index, topic, activeOnly);
      forall i | 0 <= i < |q| ensures exists j :: 0 <= j < |init| && edges[j] == q[i] {
        QueryExact(init, index, topic, activeOnly, q[i]);
        var j :| 0 <= j < |init| && init[j] == q[i];
        assert edges[j] == q[i];
      }
    }
  }

  // ----- the adjacency the evaluator searches -----

  function HopOf(edge: Edge): PathHop {
    PathHop(edge.proposer, edge.subject, edge.topic, edge.digest, edge.sequence)
  }

  function EdgeSequence(edge: Edge): nat { edge.sequence }

  /** The active, topic-matching edges out of an identity, in ledger order. */
  function OutSorted(edges: seq<Edge>, topic: Bytes, key: IdentityKey): seq<Edge> {
    SortBy(EdgeSequence, Query(edges, ByProposer(key), topic, true))
  }

  function HopsOf(edges: seq<Edge>): (hops: seq<PathHop>)
    ensures |hops| == |edges| && forall i :: 0 <= i < |edges| ==> hops[i] == HopOf(edges[i])
  {
    seq(|edges|, i requires 0 <= i < |edges| => HopOf(edges[i]))
  }

  function OutHops(edges: seq<Edge>, topic: Bytes, key: IdentityKey): seq<PathHop> {
    HopsOf(OutSorted(edges, topic, key))
  }

  function AdjacencyOf(edges: seq<Edge>, topic: Bytes): Adjacency {
    (key: IdentityKey) => OutHops(edges, topic, key)
  }

  ghost predicate Usable(edges: seq<Edge>, topic: Bytes, hop: PathHop, key: IdentityKey) {
    exists i :: 0 <= i < |edges| && edges[i].active && (topic == [] || edges[i].topic == topic) &&
                edges[i].proposer == key && hop == HopOf(edges[i])
  }

  /** The adjacency holds exactly the hops of active, topic-matching edges. */
  lemma AdjacencyExact(edges: seq<Edge>, topic: Bytes, key: IdentityKey, hop: PathHop)
    ensures hop in AdjacencyOf(edges, topic)(key) <==> Usable(edges, topic, hop, key)
  {
    var q, sorted := Query(edges, ByProposer(key), topic, true), OutSorted(edges, topic, key);
    if hop in HopsOf(sorted) {
      var i :| 0 <= i < |sorted| && HopsOf(sorted)[i] == hop;
      SortByMember(EdgeSequence, q, sorted[i]);
      QueryExact(edges, ByProposer(key), topic, true, sorted[i]);
      var j :| 0 <= j < |edges| && edges[j] == sorted[i];
    }
    if Usable(edges, topic, hop, key) {
      var i :| 0 <= i < |edges| && edges[i].active && (topic == [] || edges[i].topic == topic) &&
               edges[i].proposer == key && hop == HopOf(edges[i]);
      QueryExact(edges, ByProposer(key), topic, true, edges[i]);
      SortByMember(EdgeSequence, q, edges[i]);
      var j :| 0 <= j < |sorted| && sorted[j] == edges[i];
      assert HopsOf(sorted)[j] == hop;
    }
  }

  lemma SortedDistinct(edges: seq<Edge>)
    requires DistinctDigests(edges)
    ensures DistinctDigests(SortBy(EdgeSequence, edges))
  {
    var sorted := SortBy(EdgeSequence, edges);
    forall i, j | 0 <= i < j < |sorted| ensures sorted[i].digest != sorted[j].digest {
      SortByMember(EdgeSequence, edges, sorted[i]);
      SortByMember(EdgeSequence, edges, sorted[j]);
      if sorted[i] == sorted[j] {
        OccursTwice(sorted, i, j);
        OccursOnce(edges, sorted[i]);
      }
    }
  }

  lemma OccursTwice(s: seq<Edge>, i: nat, j: nat)
    requires i < j < |s| && s[i] == s[j]
    ensures multiset(s)[s[i]] >= 2
  {
    assert s == s[..j] + [s[j]] + s[j + 1..];
    assert s[i] in s[..j];
  }

  lemma {:induction false} OccursOnce(s: seq<Edge>, e: Edge)
    requires DistinctDigests(s)
    ensures multiset(s)[e] <= 1
  {
    if s != [] {
      var init, last := s[..|s| - 1], s[|s| - 1];
      OccursOnce(init, e);
      assert s == init + [last];
      if last == e { assert e !in init; }
    }
  }

  lemma AdjacencyDistinct(edges: seq<Edge>, topic: Bytes)
    requires DistinctDigests(edges)
    ensures DistinctHops(AdjacencyOf(edges, topic))
  {
    forall key ensures NoDuplicates(AdjacencyOf(edges, topic)(key)) {
      QueryDistinct(edges, ByProposer(key), topic, true);
      SortedDistinct(Query(edges, ByProposer(key), topic, true));
    }
  }

  lemma AdjacencyBySequence(edges: seq<Edge>, topic: Bytes)
    requires DistinctSequences(edges)
    ensures BySequence(AdjacencyOf(edges, topic))
  {
    var adjacent := AdjacencyOf(edges, topic);
    forall key, i, j | 0 <= i < j < |adjacent(key)| ensures adjacent(key)[i].sequence < adjacent(key)[j].sequence {
      QueryDistinct(edges, ByProposer(key), topic, true);
      SortByDistinct(EdgeSequence, Query(edges, ByProposer(key), topic, true));
    }
  }

  // ----- monotone score -----

  function SearchOf(edges: seq<Edge>, topic: Bytes, target: IdentityKey, decay: real, floor: real, maxHops: int): Search {
    Search(AdjacencyOf(edges, topic), target, decay, floor, maxHops)
  }

  /** Every active edge of `a` is an active edge of `b`, up to claim and timestamps. */
  ghost predicate FewerActive(a: seq<Edge>, b: seq<Edge>) {
    forall i :: 0 <= i < |a| && a[i].active ==>
      exists j :: 0 <= j < |b| && b[j].active && HopOf(b[j]) == HopOf(a[i])
  }

  lemma FewerActiveFewerHops(a: seq<Edge>, b: seq<Edge>, topic: Bytes)
    requires FewerActive(a, b)
    ensures FewerHops(AdjacencyOf(a, topic), AdjacencyOf(b, topic))
  {
    forall key, hop | hop in AdjacencyOf(a, topic)(key) ensures hop in AdjacencyOf(b, topic)(key) {
      AdjacencyExact(a, topic, key, hop);
      AdjacencyExact(b, topic, key, hop);
      var i :| 0 <= i < |a| && a[i].active && (topic == [] || a[i].topic == topic) &&
               a[i].proposer == key && hop == HopOf(a[i]);
      var j :| 0 <= j < |b| && b[j].active && HopOf(b[j]) == HopOf(a[i]);
    }
  }
}

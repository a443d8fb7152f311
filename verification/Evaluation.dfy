/** What an evaluation means: the contributing paths of a policy over the edges of a graph, and
    the score they give. */
module Evaluation {
  import opened Prelude
  import opened Reals
  import opened TrustPaths
  import opened Score
  import opened Edges

  const DEFAULT_ALGORITHM: string := "transitive-path-damping:v1"
  const DEFAULT_MIN_CONFIDENCE: real := 0.001

  datatype Policy = Policy(
    roots: map<IdentityKey, real>,
    topic: Bytes,
    maxHops: int,
    decay: real,
    minConfidence: real,
    algorithm: string)

  /** `Validate`: the checks in order, then the defaults it writes into the policy. */
  function ValidatePolicy(p: Policy): (r: Result<Policy>)
    ensures r.Ok? <==>
            && p.roots != map[] && (forall k :: k in p.roots ==> 0.0 < p.roots[k] <= 1.0)
            && p.maxHops >= 1 && 0.0 < p.decay < 1.0
    ensures r.Ok? ==> WithinBounds(r.value) && r.value.minConfidence > 0.0 && r.value.algorithm != ""
    ensures r.Ok? ==> r.value == p.(minConfidence := r.value.minConfidence, algorithm := r.value.algorithm)
    ensures r.Ok? ==> r.value.minConfidence == p.minConfidence || (p.minConfidence <= 0.0 && r.value.minConfidence == 0.001)
    ensures r.Ok? ==> r.value.algorithm == p.algorithm || (p.algorithm == "" && r.value.algorithm == "transitive-path-damping:v1")
    ensures r == Err(EmptyTrustRoots) <==> p.roots == map[]
    ensures r == Err(InvalidTrustWeight) <==> exists k :: k in p.roots && !(0.0 < p.roots[k] <= 1.0)
  {
    if p.roots == map[] then Err(EmptyTrustRoots)
    else if exists k :: k in p.roots && !(0.0 < p.roots[k] <= 1.0) then Err(InvalidTrustWeight)
    else if p.maxHops <= 0 then Err(InvalidMaxHops)
    else if p.decay <= 0.0 || p.decay >= 1.0 then Err(InvalidDecayFactor)
    else Ok(p.(algorithm := if p.algorithm == "" then DEFAULT_ALGORITHM else p.algorithm,
               minConfidence := if p.minConfidence <= 0.0 then DEFAULT_MIN_CONFIDENCE else p.minConfidence))
  }

  ghost predicate WithinBounds(p: Policy) {
    && p.roots != map[] && (forall k :: k in p.roots ==> 0.0 < p.roots[k] <= 1.0)
    && p.maxHops > 0 && 0.0 < p.decay < 1.0
  }

  // ----- the order of trust roots -----

  function HexDigit(n: nat): (d: Byte)
    requires n < 16
  {
    if n < 10 then 0x30 + n else 0x57 + n
  }

  /** Lowercase hexadecimal, as the bytes of the text. */
  function Hex(b: Bytes): Bytes {
    if b == [] then [] else [HexDigit(b[0] / 16), HexDigit(b[0] % 16)] + Hex(b[1..])
  }

  /** The evaluator sorts keys by their hexadecimal text; that is their order as bytes, and by
      `BytesLessIsNumeric` as numbers. */
  lemma {:induction false} HexKeepsOrder(a: Bytes, b: Bytes)
    ensures BytesLess(Hex(a), Hex(b)) <==> BytesLess(a, b)
  {
    if a != [] && b != [] {
      HexKeepsOrder(a[1..], b[1..]);
      assert Hex(a)[1..] == [HexDigit(a[0] % 16)] + Hex(a[1..]) && Hex(b)[1..] == [HexDigit(b[0] % 16)] + Hex(b[1..]);
      assert Hex(a)[1..][1..] == Hex(a[1..]) && Hex(b)[1..][1..] == Hex(b[1..]);
      HexDigitOrder(a[0] / 16, b[0] / 16);
      HexDigitOrder(a[0] % 16, b[0] % 16);
    }
  }

  lemma HexDigitOrder(m: nat, n: nat)
    requires m < 16 && n < 16
    ensures HexDigit(m) < HexDigit(n) <==> m < n
    ensures HexDigit(m) == HexDigit(n) <==> m == n
  {
  }

  function RootValue(root: Root): nat { BigEndianValue(root.key) }

  /** The roots of a policy, ascending by key. */
  ghost predicate ListsRoots(m: map<IdentityKey, real>, roots: seq<Root>) {
    && StrictlyAscending(RootValue, roots)
    && (forall root :: root in roots <==> root.key in m && root.weight == m[root.key])
  }

  lemma RootListUnique(m: map<IdentityKey, real>, a: seq<Root>, b: seq<Root>)
    requires ListsRoots(m, a) && ListsRoots(m, b)
    ensures a == b
  {
    StrictlyAscendingUnique(RootValue, a, b);
  }

  lemma {:induction false} RootListExists(m: map<IdentityKey, real>, keys: set<IdentityKey>) returns (roots: seq<Root>)
    requires keys <= m.Keys
    ensures NoDuplicates(roots) && forall root :: root in roots <==> root.key in keys && root.weight == m[root.key]
    decreases |keys|
  {
    if keys == {} {
      roots := [];
    } else {
      var k :| k in keys;
      var rest := RootListExists(m, keys - {k});
      roots := rest + [Root(k, m[k])];
    }
  }

  /** Sorting any listing of the roots gives the ascending one. */
  lemma SortedRoots(m: map<IdentityKey, real>, listing: seq<Root>)
    requires NoDuplicates(listing)
    requires forall root :: root in listing <==> root.key in m && root.weight == m[root.key]
    ensures ListsRoots(m, SortBy(RootValue, listing))
  {
    forall i, j | 0 <= i < j < |listing| ensures RootValue(listing[i]) != RootValue(listing[j]) {
      assert listing[i] in listing && listing[j] in listing;
      BytesLessIsNumeric(listing[i].key, listing[j].key);
    }
    SortByDistinct(RootValue, listing);
    forall root ensures root in SortBy(RootValue, listing) <==> root.key in m && root.weight == m[root.key] {
      SortByMember(RootValue, listing, root);
    }
  }

  ghost function RootsOf(m: map<IdentityKey, real>): (roots: seq<Root>)
    ensures ListsRoots(m, roots)
  {
    RootsListed(m);
    var roots :| ListsRoots(m, roots);
    roots
  }

  lemma RootsListed(m: map<IdentityKey, real>)
    ensures exists roots :: ListsRoots(m, roots)
  {
    var listing := RootListExists(m, m.Keys);
    SortedRoots(m, listing);
  }

  lemma RootsInOrder(m: map<IdentityKey, real>)
    ensures RootsAscend(RootsOf(m))
  {
    var roots := RootsOf(m);
    forall i, j | 0 <= i < j < |roots| ensures BytesLess(roots[i].key, roots[j].key) {
      BytesLessIsNumeric(roots[i].key, roots[j].key);
    }
  }

  // ----- paths and score -----

  function SearchFor(edges: seq<Edge>, p: Policy, target: IdentityKey): Search {
    SearchOf(edges, p.topic, target, p.decay, p.minConfidence, p.maxHops)
  }

  ghost function PathsFor(edges: seq<Edge>, p: Policy, target: IdentityKey): seq<PathTrace> {
    AllPaths(SearchFor(edges, p, target), RootsOf(p.roots))
  }

  function DirectTrust(p: Policy, target: IdentityKey): real {
    if target in p.roots then p.roots[target] else 0.0
  }

  ghost function ScoreFor(edges: seq<Edge>, p: Policy, target: IdentityKey): real {
    Confidence(DirectTrust(p, target), PathsFor(edges, p, target))
  }

  /** A trust path, said of the edges alone: from a trust root other than the target, along
      active edges of the topic, through no identity twice, to the target, within the hop bound,
      with weight `rootWeight * decay^hops` at or above the threshold. */
  ghost predicate TrustPath(edges: seq<Edge>, p: Policy, target: IdentityKey, t: PathTrace) {
    && t.root in p.roots && t.root != target && t.rootWeight == p.roots[t.root]
    && 1 <= |t.hops| <= p.maxHops
    && AllUsable(edges, p.topic, t.root, t.hops) && Simple({t.root}, t.hops)
    && t.hops[|t.hops| - 1].to == target
    && t.weight == PathWeight(t.rootWeight, p.decay, |t.hops|) && t.weight >= p.minConfidence
  }

  lemma WalkIsUsable(edges: seq<Edge>, topic: Bytes, at: IdentityKey, hops: seq<PathHop>)
    ensures Walk(AdjacencyOf(edges, topic), at, hops) <==> AllUsable(edges, topic, at, hops)
  {
    var adjacent := AdjacencyOf(edges, topic);
    forall i | 0 <= i < |hops|
      ensures hops[i] in adjacent(Origin(at, hops, i)) <==> Usable(edges, topic, hops[i], Origin(at, hops, i))
    {
      AdjacencyExact(edges, topic, Origin(at, hops, i), hops[i]);
    }
  }

  ghost predicate AllUsable(edges: seq<Edge>, topic: Bytes, at: IdentityKey, hops: seq<PathHop>) {
    forall i :: 0 <= i < |hops| ==> Usable(edges, topic, hops[i], Origin(at, hops, i))
  }

  lemma PathForm(edges: seq<Edge>, p: Policy, target: IdentityKey, root: IdentityKey, weight: real, hops: seq<PathHop>)
    ensures IsPath(SearchFor(edges, p, target), Start(root, weight), hops) <==>
            && 1 <= |hops| <= p.maxHops
            && AllUsable(edges, p.topic, root, hops) && Simple({root}, hops)
            && hops[|hops| - 1].to == target
            && Damped(weight, p.decay, |hops|) >= p.minConfidence
  {
    WalkIsUsable(edges, p.topic, root, hops);
  }

  lemma RootListed(m: map<IdentityKey, real>, root: IdentityKey, weight: real)
    ensures Root(root, weight) in RootsOf(m) <==> root in m && weight == m[root]
  {
  }

  lemma RootWeights(p: Policy)
    requires WithinBounds(p)
    ensures forall i :: 0 <= i < |RootsOf(p.roots)| ==> 0.0 < RootsOf(p.roots)[i].weight <= 1.0
  {
    var roots := RootsOf(p.roots);
    forall i | 0 <= i < |roots| ensures 0.0 < roots[i].weight <= 1.0 {
      assert roots[i] in roots;
    }
  }

  lemma ContributesForm(edges: seq<Edge>, p: Policy, target: IdentityKey, roots: seq<Root>, t: PathTrace)
    requires Root(t.root, t.rootWeight) in roots <==> t.root in p.roots && t.rootWeight == p.roots[t.root]
    ensures Contributes(SearchFor(edges, p, target), roots, t) <==> TrustPath(edges, p, target, t)
  {
    PathForm(edges, p, target, t.root, t.rootWeight, t.hops);
    DampedIsPower(t.rootWeight, p.decay, |t.hops|);
  }

  /** The evaluator lists exactly the trust paths. */
  lemma PathsExact(edges: seq<Edge>, p: Policy, target: IdentityKey, t: PathTrace)
    requires WithinBounds(p)
    ensures t in PathsFor(edges, p, target) <==> TrustPath(edges, p, target, t)
  {
    var s, roots := SearchFor(edges, p, target), RootsOf(p.roots);
    RootWeights(p);
    RootListed(p.roots, t.root, t.rootWeight);
    ContributesForm(edges, p, target, roots, t);
    AllPathsExact(s, roots, t);
  }

  lemma SearchIsProper(edges: seq<Edge>, p: Policy, target: IdentityKey)
    requires WithinBounds(p) && DistinctDigests(edges)
    ensures ProperSearch(SearchFor(edges, p, target), RootsOf(p.roots))
  {
    RootWeights(p);
    RootsInOrder(p.roots);
    AdjacencyDistinct(edges, p.topic);
  }

  /** Each path is listed once; by root, and for one root, where ledger sequences are distinct,
      by the sequences of the hops. */
  lemma PathsOrdered(edges: seq<Edge>, p: Policy, target: IdentityKey)
    requires WithinBounds(p) && DistinctDigests(edges)
    ensures NoDuplicates(PathsFor(edges, p, target))
    ensures DistinctSequences(edges) ==>
              var paths := PathsFor(edges, p, target);
              forall i, j :: 0 <= i < j < |paths| ==>
                BytesLess(paths[i].root, paths[j].root) ||
                (paths[i].root == paths[j].root && SequenceLess(paths[i].hops, paths[j].hops))
  {
    var s, roots := SearchFor(edges, p, target), RootsOf(p.roots);
    SearchIsProper(edges, p, target);
    AllPathsDistinct(s, roots);
    AllPathsAscend(s, roots);
    if DistinctSequences(edges) {
      AdjacencyBySequence(edges, p.topic);
      var paths := PathsFor(edges, p, target);
      forall i, j | 0 <= i < j < |paths|
        ensures BytesLess(paths[i].root, paths[j].root) ||
                (paths[i].root == paths[j].root && SequenceLess(paths[i].hops, paths[j].hops))
      {
        assert Before(s.adjacent, paths[i], paths[j]);
        if Precedes(s.adjacent, paths[i], paths[j]) { PrecedesBySequence(s.adjacent, paths[i], paths[j]); }
      }
    }
  }

  /** Bounds and extremes of the score, for every graph, policy and target. */
  lemma ScoreBounds(edges: seq<Edge>, p: Policy, target: IdentityKey)
    requires WithinBounds(p) && DistinctDigests(edges)
    ensures var score, paths := ScoreFor(edges, p, target), PathsFor(edges, p, target);
            && 0.0 <= score <= 1.0 && Clamp(score) == score
            && DirectTrust(p, target) <= score && (forall i :: 0 <= i < |paths| ==> paths[i].weight <= score)
            && (score == 0.0 <==> target !in p.roots && paths == [])
            && (score == 1.0 <==> target in p.roots && p.roots[target] == 1.0)
  {
    SearchIsProper(edges, p, target);
    PathsAreProper(SearchFor(edges, p, target), RootsOf(p.roots));
    ConfidenceBounds(DirectTrust(p, target), PathsFor(edges, p, target));
  }

  /** The score in the policy's own terms: noisy-OR of the target's own weight as a root and the
      weights of its paths; with no path just that weight, with one path and no such weight just the
      path's. */
  lemma ScoreIsNoisyOr(edges: seq<Edge>, p: Policy, target: IdentityKey)
    ensures var score, paths := ScoreFor(edges, p, target), PathsFor(edges, p, target);
            var direct := if target in p.roots then p.roots[target] else 0.0;
            && score == NoisyOr(direct, paths)
            && (paths == [] ==> score == direct)
            && (|paths| == 1 && target !in p.roots ==> score == paths[0].weight)
  {
    var paths := PathsFor(edges, p, target);
    ConfidenceIsNoisyOr(DirectTrust(p, target), paths);
    if |paths| == 1 {
      ConfidenceOfOne(paths[0]);
      assert [paths[0]] == paths;
    }
  }

  /** A graph with more active edges never scores lower. */
  lemma ScoreMonotone(a: seq<Edge>, b: seq<Edge>, p: Policy, target: IdentityKey)
    requires WithinBounds(p) && DistinctDigests(a) && DistinctDigests(b) && FewerActive(a, b)
    ensures ScoreFor(a, p, target) <= ScoreFor(b, p, target)
  {
    SearchIsProper(a, p, target);
    SearchIsProper(b, p, target);
    FewerActiveFewerHops(a, b, p.topic);
    SearchScoreMonotone(SearchFor(a, p, target), SearchFor(b, p, target), RootsOf(p.roots), DirectTrust(p, target));
  }

  /** Adding an edge never lowers a score. */
  lemma AddingNeverLowers(g: GraphValue, edge: Edge, p: Policy, target: IdentityKey)
    requires WithinBounds(p) && DistinctDigests(g.edges) && Added(g, edge).Ok?
    ensures DistinctDigests(Added(g, edge).value.edges)
    ensures ScoreFor(g.edges, p, target) <= ScoreFor(Added(g, edge).value.edges, p, target)
  {
    var a, b := g.edges, g.edges + [edge];
    forall i | 0 <= i < |a| && a[i].active ensures exists j :: 0 <= j < |b| && b[j].active && HopOf(b[j]) == HopOf(a[i]) {
      assert b[i] == a[i];
    }
    ScoreMonotone(a, b, p, target);
  }

  /** Revoking an edge never raises a score. */
  lemma RevokingNeverRaises(g: GraphValue, req: RevokeRequest, p: Policy, target: IdentityKey)
    requires WithinBounds(p) && DistinctDigests(g.edges) && Revoked(g, req).Ok?
    ensures DistinctDigests(Revoked(g, req).value.edges)
    ensures ScoreFor(Revoked(g, req).value.edges, p, target) <= ScoreFor(g.edges, p, target)
  {
    var a, b := Revoked(g, req).value.edges, g.edges;
    forall i | 0 <= i < |a| && a[i].active ensures exists j :: 0 <= j < |b| && b[j].active && HopOf(b[j]) == HopOf(a[i]) {
      assert b[i] == a[i];
    }
    ScoreMonotone(a, b, p, target);
  }
}

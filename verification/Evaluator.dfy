/** The evaluator as it runs: a recursive search that marks and unmarks a shared `visited` map and
    accumulates paths, digests, nodes and edges as it goes. */
module Evaluator {
  import opened Prelude
  import opened Reals
  import opened TrustPaths
  import opened Score
  import opened Edges
  import opened AttestationGraph
  import opened Evaluation

  // ----- what the accumulated provenance is -----

  function HopDigests(hops: seq<PathHop>): (digests: seq<Digest>)
    ensures |digests| == |hops| && forall i :: 0 <= i < |hops| ==> digests[i] == hops[i].digest
  {
    seq(|hops|, i requires 0 <= i < |hops| => hops[i].digest)
  }

  /** The digests on the paths, path after path. */
  function PathDigests(paths: seq<PathTrace>): seq<Digest> {
    if paths == [] then [] else PathDigests(paths[..|paths| - 1]) + HopDigests(paths[|paths| - 1].hops)
  }

  ghost predicate OnPaths(paths: seq<PathTrace>, digest: Digest) {
    exists i, j :: 0 <= i < |paths| && 0 <= j < |paths[i].hops| && paths[i].hops[j].digest == digest
  }

  lemma {:induction false} PathDigestsExact(paths: seq<PathTrace>, digest: Digest)
    ensures digest in PathDigests(paths) <==> OnPaths(paths, digest)
  {
    if paths != [] {
      var init, last := paths[..|paths| - 1], paths[|paths| - 1];
      PathDigestsExact(init, digest);
      if OnPaths(init, digest) {
        var i, j :| 0 <= i < |init| && 0 <= j < |init[i].hops| && init[i].hops[j].digest == digest;
        assert paths[i].hops[j].digest == digest;
      }
      if digest in HopDigests(last.hops) {
        var j :| 0 <= j < |last.hops| && HopDigests(last.hops)[j] == digest;
        assert paths[|paths| - 1].hops[j].digest == digest;
      }
      if OnPaths(paths, digest) {
        var i, j :| 0 <= i < |paths| && 0 <= j < |paths[i].hops| && paths[i].hops[j].digest == digest;
        if i < |init| {
          assert init[i].hops[j].digest == digest;
        } else {
          assert HopDigests(last.hops)[j] == digest;
        }
      }
    }
  }

  ghost function HopNodes(hops: seq<PathHop>): set<IdentityKey> {
    (set h | h in hops :: h.from) + (set h | h in hops :: h.to)
  }

  ghost function PathNodes(paths: seq<PathTrace>): set<IdentityKey> {
    if paths == [] then {}
    else
      var last := paths[|paths| - 1];
      PathNodes(paths[..|paths| - 1]) + {last.root} + HopNodes(last.hops)
  }

  // ----- sorted outputs -----

  function DigestValue(d: Digest): nat { BigEndianValue(d) }
  function KeyValue(k: IdentityKey): nat { BigEndianValue(k) }
  function EdgeOrder(e: AttestationEdge): nat { e.sequence }

  /** A sorted sequence without its repetitions. */
  ghost function Distinct(sorted: seq<Digest>): seq<Digest> {
    var n := |sorted|;
    if n == 0 then []
    else Distinct(sorted[..n - 1]) + (if n == 1 || sorted[n - 1] != sorted[n - 2] then [sorted[n - 1]] else [])
  }

  lemma {:induction false} DistinctMember(sorted: seq<Digest>, d: Digest)
    ensures d in Distinct(sorted) <==> d in sorted
  {
    var n := |sorted|;
    if n > 0 {
      DistinctMember(sorted[..n - 1], d);
      assert sorted == sorted[..n - 1] + [sorted[n - 1]];
    }
  }

  lemma {:induction false} DistinctLast(sorted: seq<Digest>)
    requires sorted != []
    ensures Distinct(sorted) != [] && Distinct(sorted)[|Distinct(sorted)| - 1] == sorted[|sorted| - 1]
  {
    if |sorted| > 1 { DistinctLast(sorted[..|sorted| - 1]); }
  }

  lemma {:induction false} DistinctAscends(sorted: seq<Digest>)
    requires Ascending(DigestValue, sorted)
    ensures StrictlyAscending(DigestValue, Distinct(sorted))
  {
    var n := |sorted|;
    if n > 0 {
      var init, last := sorted[..n - 1], sorted[n - 1];
      DistinctAscends(init);
      if n > 1 && last != sorted[n - 2] {
        BytesLessIsNumeric(sorted[n - 2], last);
        DistinctLast(init);
        AscendsAppend(Distinct(init), last);
      }
    }
  }

  lemma AscendsAppend(s: seq<Digest>, d: Digest)
    requires StrictlyAscending(DigestValue, s) && s != [] && DigestValue(s[|s| - 1]) < DigestValue(d)
    ensures StrictlyAscending(DigestValue, s + [d])
  {
  }

  /** `sort.Slice` on a caller's slice. */
  method SortInPlace(digests: array<Digest>)
    modifies digests
    ensures digests[..] == SortBy(DigestValue, old(digests[..]))
  {
    var sorted := SortBy(DigestValue, digests[..]);
    forall i | 0 <= i < digests.Length { digests[i] := sorted[i]; }
  }

  /** Ascending as `bytes.Compare` orders, without repetition. */
  ghost predicate BytesAscend(s: seq<Bytes>) {
    forall i, j :: 0 <= i < j < |s| ==> BytesLess(s[i], s[j])
  }

  lemma DigestsAscend(s: seq<Digest>)
    requires StrictlyAscending(DigestValue, s)
    ensures BytesAscend(s)
  {
    forall i, j | 0 <= i < j < |s| ensures BytesLess(s[i], s[j]) { BytesLessIsNumeric(s[i], s[j]); }
  }

  lemma KeysAscend(s: seq<IdentityKey>)
    requires StrictlyAscending(KeyValue, s)
    ensures BytesAscend(s)
  {
    forall i, j | 0 <= i < j < |s| ensures BytesLess(s[i], s[j]) { BytesLessIsNumeric(s[i], s[j]); }
  }

  /** `DeduplicateDigests`: sort in place, then keep each digest that differs from the one before. */
  method DeduplicateDigests(digests: array<Digest>) returns (r: seq<Digest>)
    modifies digests
    ensures digests[..] == SortBy(DigestValue, old(digests[..]))
    ensures StrictlyAscending(DigestValue, r) && BytesAscend(r)
    ensures forall d :: d in r <==> d in old(digests[..])
  {
    ghost var given := digests[..];
    SortInPlace(digests);
    r := DropRepeats(digests[..]);
    DistinctAscends(digests[..]);
    DigestsAscend(r);
    forall d ensures d in r <==> d in given {
      DistinctMember(digests[..], d);
      SortByMember(DigestValue, given, d);
    }
  }

  method DropRepeats(sorted: seq<Digest>) returns (r: seq<Digest>)
    ensures r == Distinct(sorted)
  {
    r := [];
    for i := 0 to |sorted|
      invariant r == Distinct(sorted[..i])
    {
      assert sorted[..i + 1][..i] == sorted[..i];
      if i == 0 || sorted[i] != sorted[i - 1] { r := r + [sorted[i]]; }
    }
    assert sorted[..|sorted|] == sorted;
  }

  /** Collect a set in whatever order it iterates, then sort. */
  method SortKeys(keys: set<IdentityKey>) returns (r: seq<IdentityKey>)
    ensures StrictlyAscending(KeyValue, r) && BytesAscend(r)
    ensures forall k :: k in r <==> k in keys
  {
    var listing: seq<IdentityKey>, left := [], keys;
    while left != {}
      invariant left <= keys && NoDuplicates(listing)
      invariant forall k :: k in listing <==> k in keys && k !in left
      decreases |left|
    {
      var k :| k in left;
      listing, left := listing + [k], left - {k};
    }
    forall i, j | 0 <= i < j < |listing| ensures KeyValue(listing[i]) != KeyValue(listing[j]) {
      BytesLessIsNumeric(listing[i], listing[j]);
    }
    r := SortBy(KeyValue, listing);
    SortByDistinct(KeyValue, listing);
    KeysAscend(r);
    forall k ensures k in r <==> k in keys { SortByMember(KeyValue, listing, k); }
  }

  method SortRoots(m: map<IdentityKey, real>) returns (roots: seq<Root>)
    ensures roots == RootsOf(m)
  {
    var listing: seq<Root>, left := [], m.Keys;
    while left != {}
      invariant left <= m.Keys && NoDuplicates(listing)
      invariant forall root :: root in listing <==> root.key in m && root.key !in left && root.weight == m[root.key]
      decreases |left|
    {
      var k :| k in left;
      listing, left := listing + [Root(k, m[k])], left - {k};
    }
    roots := SortBy(RootValue, listing);
    SortedRoots(m, listing);
    RootListUnique(m, roots, RootsOf(m));
  }

  ghost predicate Holds(edges: map<Digest, AttestationEdge>, e: AttestationEdge) {
    exists d :: d in edges && edges[d] == e
  }

  ghost predicate KeyedByDigest(edges: map<Digest, AttestationEdge>) {
    forall d :: d in edges ==> edges[d].digest == d
  }

  method SortEdges(edges: map<Digest, AttestationEdge>) returns (r: seq<AttestationEdge>)
    requires KeyedByDigest(edges)
    ensures Ascending(EdgeOrder, r) && NoDuplicates(r)
    ensures forall e :: e in r <==> Holds(edges, e)
  {
    var listing: seq<AttestationEdge>, left := [], edges.Keys;
    while left != {}
      invariant left <= edges.Keys && NoDuplicates(listing)
      invariant forall e :: e in listing ==> e.digest in edges && e.digest !in left && edges[e.digest] == e
      invariant forall d :: d in edges && d !in left ==> edges[d] in listing
      decreases |left|
    {
      var d :| d in left;
      listing, left := listing + [edges[d]], left - {d};
    }
    r := SortBy(EdgeOrder, listing);
    SortByNoDuplicates(EdgeOrder, listing);
    forall e ensures e in r <==> Holds(edges, e) { SortByMember(EdgeOrder, listing, e); }
  }

  // ----- sorting edges by reference is sorting their values -----

  lemma ValuesFront(e: AttestationEdge, es: seq<AttestationEdge>)
    ensures Values([e] + es) == [e.Value()] + Values(es)
  {
  }

  lemma ValuesRest(es: seq<AttestationEdge>)
    requires es != []
    ensures Values(es) == [es[0].Value()] + Values(es[1..])
    ensures Values(es)[0] == es[0].Value() && Values(es)[1..] == Values(es[1..])
  {
  }

  lemma {:induction false} InsertValues(e: AttestationEdge, es: seq<AttestationEdge>)
    ensures Values(Insert(EdgeOrder, e, es)) == Insert(EdgeSequence, e.Value(), Values(es))
  {
    if es == [] || EdgeOrder(e) <= EdgeOrder(es[0]) {
      ValuesFront(e, es);
    } else {
      InsertValues(e, es[1..]);
      ValuesRest(es);
      ValuesFront(es[0], Insert(EdgeOrder, e, es[1..]));
    }
  }

  lemma {:induction false} SortValues(es: seq<AttestationEdge>)
    ensures Values(SortBy(EdgeOrder, es)) == SortBy(EdgeSequence, Values(es))
  {
    if es != [] {
      SortValues(es[1..]);
      ValuesRest(es);
      InsertValues(es[0], SortBy(EdgeOrder, es[1..]));
    }
  }

  /** The marks a `visited` map holds. */
  ghost function Marks(visited: map<IdentityKey, bool>): set<IdentityKey> {
    set k | k in visited && visited[k]
  }

  lemma MarkAndUnmark(visited: map<IdentityKey, bool>, k: IdentityKey)
    ensures Marks(visited[k := true]) == Marks(visited) + {k}
    ensures Marks(visited[k := false]) == Marks(visited) - {k}
  {
  }

  /** The edges found under some digests. */
  ghost function EdgesAt(m: map<Digest, AttestationEdge>, digests: seq<Digest>): map<Digest, AttestationEdge> {
    map d | d in digests && d in m :: m[d]
  }

  lemma EdgesAtAppend(m: map<Digest, AttestationEdge>, digests: seq<Digest>, d: Digest)
    ensures EdgesAt(m, digests + [d]) == if d in m then EdgesAt(m, digests)[d := m[d]] else EdgesAt(m, digests)
  {
  }

  lemma HopsAppend(hops: seq<PathHop>, h: PathHop)
    ensures HopDigests(hops + [h]) == HopDigests(hops) + [h.digest]
    ensures HopNodes(hops + [h]) == HopNodes(hops) + {h.from} + {h.to}
  {
    assert forall x :: x in hops + [h] <==> x in hops || x == h;
    assert (set x | x in hops + [h] :: x.from) == (set x | x in hops :: x.from) + {h.from};
    assert (set x | x in hops + [h] :: x.to) == (set x | x in hops :: x.to) + {h.to};
  }

  lemma HopsPrefix(hops: seq<PathHop>, i: nat, nodes: set<IdentityKey>, digests: seq<Digest>)
    requires i < |hops|
    ensures nodes + HopNodes(hops[..i + 1]) == nodes + HopNodes(hops[..i]) + {hops[i].from} + {hops[i].to}
    ensures digests + HopDigests(hops[..i + 1]) == digests + HopDigests(hops[..i]) + [hops[i].digest]
  {
    assert hops[..i + 1] == hops[..i] + [hops[i]];
    HopsAppend(hops[..i], hops[i]);
  }

  lemma PathsAppend(paths: seq<PathTrace>, p: PathTrace)
    ensures PathDigests(paths + [p]) == PathDigests(paths) + HopDigests(p.hops)
    ensures PathNodes(paths + [p]) == PathNodes(paths) + {p.root} + HopNodes(p.hops)
  {
    assert (paths + [p])[..|paths|] == paths;
  }

  // ----- the search -----

  class PathSearch {
    const graph: Graph
    const policy: Policy
    const target: IdentityKey
    var visited: map<IdentityKey, bool>
    var paths: seq<PathTrace>
    var nodes: set<IdentityKey>
    var edges: map<Digest, AttestationEdge>
    var digests: seq<Digest>
    /** The target, once it has been met among the roots. */
    ghost var seed: set<IdentityKey>

    constructor (graph: Graph, policy: Policy, target: IdentityKey, ghost s: Search)
      requires graph.Valid() && s == SearchFor(graph.View().edges, policy, target)
      ensures this.graph == graph && this.policy == policy && this.target == target
      ensures paths == [] && seed == {} && Collected()
      ensures Searching(s)
    {
      this.graph, this.policy, this.target := graph, policy, target;
      visited, paths, nodes, edges, digests, seed := map[], [], {}, map[], [], {};
    }

    /** The accumulated provenance is exactly that of the paths found so far. */
    ghost predicate Collected()
      reads this, graph
    {
      && digests == PathDigests(paths)
      && nodes == seed + PathNodes(paths)
      && edges == EdgesAt(graph.edgesByDigest, digests)
    }

    /** The loop over the trust roots; the target itself only joins the provenance nodes. */
    method SearchAll(roots: seq<Root>, ghost s: Search)
      requires Searching(s) && Collected() && paths == [] && seed == {}
      modifies this
      ensures Collected() && paths == AllPaths(s, roots)
      ensures seed == if HasRoot(roots, target) then {target} else {}
    {
      for i := 0 to |roots|
        invariant Collected() && paths == AllPaths(s, roots[..i])
        invariant seed == if HasRoot(roots[..i], target) then {target} else {}
      {
        RootsPrefix(s, roots, i);
        FromRoot(roots[i], s);
      }
      assert roots[..|roots|] == roots;
    }

    method FromRoot(root: Root, ghost s: Search)
      requires Searching(s) && Collected() && seed <= {target}
      modifies this
      ensures Collected()
      ensures paths == old(paths) + (if root.key == target then [] else Explore(s, Start(root.key, root.weight)))
      ensures seed == if root.key == target then {target} else old(seed)
    {
      if root.key == target {
        nodes, seed := nodes + {target}, {target};
      } else {
        visited := map[root.key := true];
        assert Marks(visited) == {root.key};
        FindPaths(root.key, root.weight, root.key, root.weight, [], 1, s, Start(root.key, root.weight));
      }
    }

    /** Append a path that reached the target and everything on it. */
    method Arrive(path: PathTrace)
      requires Collected()
      requires path.hops != [] && path.hops[|path.hops| - 1].to == target
      modifies this`paths, this`nodes, this`edges, this`digests
      ensures Collected() && paths == old(paths) + [path]
    {
      PathsAppend(paths, path);
      assert target in HopNodes(path.hops) by { assert path.hops[|path.hops| - 1] in path.hops; }
      paths := paths + [path];
      nodes := nodes + {path.root} + {target};
      CollectHops(path.hops);
    }

    /** The loop over the hops of a path that reached the target. */
    method CollectHops(hops: seq<PathHop>)
      requires edges == EdgesAt(graph.edgesByDigest, digests)
      modifies this`nodes, this`edges, this`digests
      ensures nodes == old(nodes) + HopNodes(hops) && digests == old(digests) + HopDigests(hops)
      ensures edges == EdgesAt(graph.edgesByDigest, digests)
    {
      for i := 0 to |hops|
        invariant nodes == old(nodes) + HopNodes(hops[..i])
        invariant digests == old(digests) + HopDigests(hops[..i])
        invariant edges == EdgesAt(graph.edgesByDigest, digests)
      {
        HopsPrefix(hops, i, old(nodes), old(digests));
        CollectHop(hops[i]);
      }
      assert hops[..|hops|] == hops;
    }

    method CollectHop(h: PathHop)
      requires edges == EdgesAt(graph.edgesByDigest, digests)
      modifies this`nodes, this`edges, this`digests
      ensures nodes == old(nodes) + {h.from} + {h.to} && digests == old(digests) + [h.digest]
      ensures edges == EdgesAt(graph.edgesByDigest, digests)
    {
      EdgesAtAppend(graph.edgesByDigest, digests, h.digest);
      nodes := nodes + {h.from} + {h.to};
      if h.digest in graph.edgesByDigest {
        edges := edges[h.digest := graph.edgesByDigest[h.digest]];
      }
      digests := digests + [h.digest];
    }

    /** The graph stands still and `s` is the search over it. */
    ghost predicate Searching(s: Search)
      reads graph, graph.log
    {
      graph.Valid() && s == SearchFor(graph.View().edges, policy, target)
    }

    /** `findPaths`: it appends exactly what the search from here enumerates, and leaves the
        marks as it found them. */
    method FindPaths(root: IdentityKey, rootWeight: real, current: IdentityKey, weight: real,
                     hops: seq<PathHop>, depth: nat, ghost s: Search, ghost t: Trail)
      requires Searching(s) && Collected()
      requires t == Trail(root, rootWeight, current, weight, hops, Marks(visited)) && depth == |hops| + 1
      modifies this`visited, this`paths, this`nodes, this`edges, this`digests
      ensures Collected() && paths == old(paths) + Explore(s, t)
      ensures Marks(visited) == old(Marks(visited))
      decreases Budget(s, t), 1, 1
    {
      if depth > policy.maxHops { return; }
      var out := HopsFrom(current, s);
      FollowAll(out, root, rootWeight, current, weight, hops, depth, s, t, s.adjacent(current));
    }

    /** The loop over the out-edges. */
    method FollowAll(out: seq<AttestationEdge>, root: IdentityKey, rootWeight: real, current: IdentityKey, weight: real,
                     hops: seq<PathHop>, depth: nat, ghost s: Search, ghost t: Trail, ghost taken: seq<PathHop>)
      requires Searching(s) && Collected()
      requires t == Trail(root, rootWeight, current, weight, hops, Marks(visited)) && depth == |hops| + 1 <= policy.maxHops
      requires |out| == |taken|
      requires forall i :: 0 <= i < |out| ==> HopOf(out[i].Value()) == taken[i] && out[i].proposer == current
      modifies this`visited, this`paths, this`nodes, this`edges, this`digests
      ensures Collected() && paths == old(paths) + Fan(s, t, taken)
      ensures Marks(visited) == old(Marks(visited))
      decreases Budget(s, t), 1, 0
    {
      assert taken[0..] == taken;
      for i := 0 to |out|
        invariant Collected() && Marks(visited) == t.visited
        invariant paths + Fan(s, t, taken[i..]) == old(paths) + Fan(s, t, taken)
      {
        FanSplit(s, t, taken, i, paths);
        Follow(out[i], root, rootWeight, current, weight, hops, depth, s, t);
      }
      assert Fan(s, t, taken[|out|..]) == [];
    }

    /** The active out-edges of the topic, in ledger order: the hops the search takes. */
    method HopsFrom(current: IdentityKey, ghost s: Search) returns (out: seq<AttestationEdge>)
      requires Searching(s)
      ensures |out| == |s.adjacent(current)|
      ensures forall i :: 0 <= i < |out| ==> HopOf(out[i].Value()) == s.adjacent(current)[i] && out[i].proposer == current
    {
      var found := graph.OutEdges(current, policy.topic, true);
      out := SortBy(EdgeOrder, found);
      SortValues(found);
      OutProposer(graph.View().edges, policy.topic, current);
    }

    /** One turn of the loop in `findPaths`. */
    method Follow(edge: AttestationEdge, root: IdentityKey, rootWeight: real, current: IdentityKey, weight: real,
                  hops: seq<PathHop>, depth: nat, ghost s: Search, ghost t: Trail)
      requires Searching(s) && Collected() && edge.proposer == current
      requires t == Trail(root, rootWeight, current, weight, hops, Marks(visited)) && depth == |hops| + 1 <= policy.maxHops
      modifies this`visited, this`paths, this`nodes, this`edges, this`digests
      ensures Collected() && paths == old(paths) + Branch(s, t, HopOf(edge.Value()))
      ensures Marks(visited) == old(Marks(visited))
      decreases Budget(s, t), 0, 0
    {
      var neighbor := edge.subject;
      if neighbor in visited && visited[neighbor] { return; }
      var hop := PathHop(current, neighbor, edge.topic, edge.digest, edge.sequence);
      var pathWeight := Times(weight, policy.decay);
      if pathWeight < policy.minConfidence { return; }
      if neighbor == target {
        Arrive(PathTrace(root, rootWeight, hops + [hop], pathWeight));
      } else if depth < policy.maxHops {
        Descend(root, rootWeight, neighbor, pathWeight, hops + [hop], depth + 1, s, Step(s, t, hop));
      }
    }

    /** Mark the neighbor, search from it, and clear the mark again. */
    method Descend(root: IdentityKey, rootWeight: real, neighbor: IdentityKey, weight: real,
                   hops: seq<PathHop>, depth: nat, ghost s: Search, ghost t: Trail)
      requires Searching(s) && Collected() && neighbor !in Marks(visited)
      requires t == Trail(root, rootWeight, neighbor, weight, hops, Marks(visited) + {neighbor}) && depth == |hops| + 1
      modifies this`visited, this`paths, this`nodes, this`edges, this`digests
      ensures Collected() && paths == old(paths) + Explore(s, t)
      ensures Marks(visited) == old(Marks(visited))
      decreases Budget(s, t), 1, 2
    {
      MarkAndUnmark(visited, neighbor);
      visited := visited[neighbor := true];
      FindPaths(root, rootWeight, neighbor, weight, hops, depth, s, t);
      MarkAndUnmark(visited, neighbor);
      visited := visited[neighbor := false];
    }
  }

  // ----- evaluate -----

  ghost predicate HasRoot(roots: seq<Root>, key: IdentityKey) {
    exists i :: 0 <= i < |roots| && roots[i].key == key
  }

  lemma FanSplit(s: Search, t: Trail, adjacent: seq<PathHop>, i: nat, paths: seq<PathTrace>)
    requires |t.hops| < s.maxHops && i < |adjacent|
    ensures paths + Fan(s, t, adjacent[i..]) == (paths + Branch(s, t, adjacent[i])) + Fan(s, t, adjacent[i + 1..])
  {
    assert adjacent[i..][0] == adjacent[i] && adjacent[i..][1..] == adjacent[i + 1..];
  }

  lemma OutProposer(edges: seq<Edge>, topic: Bytes, key: IdentityKey)
    ensures forall i :: 0 <= i < |OutSorted(edges, topic, key)| ==> OutSorted(edges, topic, key)[i].proposer == key
  {
    var sorted := OutSorted(edges, topic, key);
    forall i | 0 <= i < |sorted| ensures sorted[i].proposer == key {
      SortByMember(EdgeSequence, Query(edges, ByProposer(key), topic, true), sorted[i]);
      QueryExact(edges, ByProposer(key), topic, true, sorted[i]);
    }
  }

  lemma AllPathsAppend(s: Search, roots: seq<Root>, root: Root)
    ensures AllPaths(s, roots + [root]) ==
            AllPaths(s, roots) + (if root.key == s.target then [] else Explore(s, Start(root.key, root.weight)))
  {
    assert (roots + [root])[..|roots|] == roots;
  }

  lemma HasRootAppend(roots: seq<Root>, root: Root, key: IdentityKey)
    ensures HasRoot(roots + [root], key) <==> HasRoot(roots, key) || root.key == key
  {
    var all := roots + [root];
    assert forall i :: 0 <= i < |roots| ==> all[i] == roots[i];
    assert all[|roots|] == root;
  }

  lemma RootsPrefix(s: Search, roots: seq<Root>, i: nat)
    requires i < |roots|
    ensures AllPaths(s, roots[..i + 1]) == AllPaths(s, roots[..i]) +
            (if roots[i].key == s.target then [] else Explore(s, Start(roots[i].key, roots[i].weight)))
    ensures HasRoot(roots[..i + 1], s.target) <==> HasRoot(roots[..i], s.target) || roots[i].key == s.target
  {
    assert roots[..i + 1] == roots[..i] + [roots[i]];
    AllPathsAppend(s, roots[..i], roots[i]);
    HasRootAppend(roots[..i], roots[i], s.target);
  }

  /** A path starts at, leaves or enters the identity. */
  ghost predicate Visits(paths: seq<PathTrace>, k: IdentityKey) {
    exists i :: 0 <= i < |paths| && (paths[i].root == k || k in HopNodes(paths[i].hops))
  }

  lemma {:induction false} PathNodesExact(paths: seq<PathTrace>, k: IdentityKey)
    ensures k in PathNodes(paths) <==> Visits(paths, k)
  {
    if paths != [] {
      var init, last := paths[..|paths| - 1], paths[|paths| - 1];
      PathNodesExact(init, k);
      assert forall i :: 0 <= i < |init| ==> init[i] == paths[i];
      assert last == paths[|paths| - 1];
    }
  }

  datatype ConfidenceResult = ConfidenceResult(
    target: IdentityKey,
    topic: Bytes,
    score: real,
    algorithm: string,
    sequence: Uint64,
    paths: seq<PathTrace>,
    records: seq<Digest>,
    nodes: seq<IdentityKey>,
    edges: seq<AttestationEdge>)

  /** What a result says of the graph it was computed from. */
  ghost predicate Explains(graph: Graph, p: Policy, target: IdentityKey, v: ConfidenceResult)
    reads graph, graph.log
  {
    && v.target == target && v.topic == p.topic && v.algorithm == p.algorithm && v.sequence == graph.lastSequence
    && v.paths == PathsFor(graph.View().edges, p, target)
    && v.score == ScoreFor(graph.View().edges, p, target)
    && ProvenanceExact(graph, p, target, v)
  }

  /** Records, nodes and edges are exactly those on the paths, plus the target when it is a
      root; each list ascends, so none depends on the order a map iterates in. */
  ghost predicate ProvenanceExact(graph: Graph, p: Policy, target: IdentityKey, v: ConfidenceResult)
    reads graph
  {
    && StrictlyAscending(DigestValue, v.records) && BytesAscend(v.records)
    && (forall d :: d in v.records <==> OnPaths(v.paths, d))
    && StrictlyAscending(KeyValue, v.nodes) && BytesAscend(v.nodes)
    && (forall k :: k in v.nodes <==> Visits(v.paths, k) || (k == target && target in p.roots))
    && Ascending(EdgeOrder, v.edges) && NoDuplicates(v.edges)
    && (forall i, j :: 0 <= i < j < |v.edges| ==> v.edges[i].sequence <= v.edges[j].sequence)
    && (forall e :: e in v.edges ==> e in graph.log && OnPaths(v.paths, e.digest))
    && (forall e :: e in graph.log && OnPaths(v.paths, e.digest) ==> e in v.edges)
  }

  lemma EdgesAtLog(log: seq<AttestationEdge>, digests: seq<Digest>, e: AttestationEdge)
    requires OneEach(log)
    ensures Holds(EdgesAt(Built(log).byDigest, digests), e) <==> e in log && e.digest in digests
  {
    var found := EdgesAt(Built(log).byDigest, digests);
    if Holds(found, e) {
      var d :| d in found && found[d] == e;
      ByDigestExact(log, d);
      var i :| 0 <= i < |log| && log[i].digest == d;
    }
    if e in log && e.digest in digests {
      var i :| 0 <= i < |log| && log[i] == e;
      ByDigestExact(log, e.digest);
      assert e.digest in found && found[e.digest] == e;
    }
  }

  lemma EdgesKeyed(log: seq<AttestationEdge>, digests: seq<Digest>)
    requires OneEach(log)
    ensures KeyedByDigest(EdgesAt(Built(log).byDigest, digests))
  {
    var found := EdgesAt(Built(log).byDigest, digests);
    forall d | d in found ensures found[d].digest == d {
      ByDigestExact(log, d);
    }
  }

  lemma EdgeOnPaths(log: seq<AttestationEdge>, paths: seq<PathTrace>, e: AttestationEdge)
    requires OneEach(log)
    ensures Holds(EdgesAt(Built(log).byDigest, PathDigests(paths)), e) <==> e in log && OnPaths(paths, e.digest)
  {
    EdgesAtLog(log, PathDigests(paths), e);
    PathDigestsExact(paths, e.digest);
  }

  method Multiply(direct: real, paths: seq<PathTrace>) returns (score: real)
    ensures score == Clamp(Confidence(direct, paths))
    ensures var exact := NoisyOr(direct, paths);
            score == if exact < 0.0 then 0.0 else if exact > 1.0 then 1.0 else exact
  {
    var unconfidence := 1.0 - direct;
    for i := 0 to |paths|
      invariant unconfidence == Unconfidence(1.0 - direct, paths[..i])
    {
      assert paths[..i + 1][..i] == paths[..i];
      unconfidence := Times(unconfidence, 1.0 - paths[i].weight);
    }
    assert paths[..|paths|] == paths;
    ConfidenceIsNoisyOr(direct, paths);
    score := Clamp(1.0 - unconfidence);
  }

  lemma RootIsListed(m: map<IdentityKey, real>, key: IdentityKey)
    ensures HasRoot(RootsOf(m), key) <==> key in m
  {
    var roots := RootsOf(m);
    if key in m {
      assert Root(key, m[key]) in roots;
    }
    if HasRoot(roots, key) {
      var i :| 0 <= i < |roots| && roots[i].key == key;
      assert roots[i] in roots;
    }
  }

  /** `Evaluate`. */
  method Evaluate(graph: Graph, given: Policy, target: IdentityKey) returns (r: Result<ConfidenceResult>)
    requires graph.Valid()
    ensures match ValidatePolicy(given)
            case Err(error) => r == Err(error)
            case Ok(p) => r.Ok? && Explains(graph, p, target, r.value)
  {
    var checked := ValidatePolicy(given);
    if checked.Err? { return Err(checked.error); }
    var v := EvaluateUnder(graph, checked.value, target);
    return Ok(v);
  }

  /** `Evaluate` once the policy has passed. */
  method EvaluateUnder(graph: Graph, p: Policy, target: IdentityKey) returns (v: ConfidenceResult)
    requires graph.Valid() && WithinBounds(p)
    ensures Explains(graph, p, target, v)
  {
    ghost var edges := graph.View().edges;
    EvaluationScore(graph, p, target);
    var search := RunSearch(graph, p, target, edges);
    var score := Multiply(DirectTrust(p, target), search.paths);
    assert score == ScoreFor(edges, p, target);
    v := Assemble(graph, p, search, score);
    assert graph.View().edges == edges;
  }

  lemma EvaluationScore(graph: Graph, p: Policy, target: IdentityKey)
    requires graph.Valid() && WithinBounds(p)
    ensures Clamp(ScoreFor(graph.View().edges, p, target)) == ScoreFor(graph.View().edges, p, target)
  {
    ViewDistinct(graph);
    ScoreBounds(graph.View().edges, p, target);
  }

  lemma ViewDistinct(graph: Graph)
    requires graph.Valid()
    ensures DistinctDigests(graph.View().edges)
  {
    ValuesDistinct(graph.log);
  }

  method RunSearch(graph: Graph, p: Policy, target: IdentityKey, ghost edges: seq<Edge>) returns (search: PathSearch)
    requires graph.Valid() && edges == graph.View().edges
    ensures search.graph == graph && search.target == target && search.Collected()
    ensures search.paths == PathsFor(edges, p, target)
    ensures search.seed == if target in p.roots then {target} else {}
  {
    var roots := SortRoots(p.roots);
    RootIsListed(p.roots, target);
    ghost var s := SearchFor(edges, p, target);
    search := new PathSearch(graph, p, target, s);
    search.SearchAll(roots, s);
  }

  method SortRecords(digests: seq<Digest>) returns (records: seq<Digest>)
    ensures StrictlyAscending(DigestValue, records) && BytesAscend(records)
    ensures forall d :: d in records <==> d in digests
  {
    var listing := new Digest[|digests|](i requires 0 <= i < |digests| => digests[i]);
    assert listing[..] == digests;
    records := DeduplicateDigests(listing);
  }

  /** Sort and deduplicate what the search accumulated. */
  method Assemble(graph: Graph, p: Policy, search: PathSearch, score: real) returns (v: ConfidenceResult)
    requires graph.Valid() && search.graph == graph && search.Collected()
    requires search.seed == if search.target in p.roots then {search.target} else {}
    ensures v.target == search.target && v.topic == p.topic && v.algorithm == p.algorithm && v.sequence == graph.lastSequence
    ensures v.paths == search.paths && v.score == score && ProvenanceExact(graph, p, search.target, v)
  {
    var records := SortRecords(search.digests);
    forall d ensures d in records <==> OnPaths(search.paths, d) { PathDigestsExact(search.paths, d); }
    var nodes := SortKeys(search.nodes);
    forall k ensures k in nodes <==> Visits(search.paths, k) || (k == search.target && search.target in p.roots) {
      PathNodesExact(search.paths, k);
    }
    EdgesKeyed(graph.log, search.digests);
    var edges := SortEdges(search.edges);
    forall e | e in edges ensures e in graph.log && OnPaths(search.paths, e.digest) {
      EdgeOnPaths(graph.log, search.paths, e);
    }
    forall e | e in graph.log && OnPaths(search.paths, e.digest) ensures e in edges {
      EdgeOnPaths(graph.log, search.paths, e);
    }
    v := ConfidenceResult(search.target, p.topic, score, p.algorithm, graph.lastSequence, search.paths, records, nodes, edges);
  }

  // ----- independence of iteration order -----

  /** On a projected graph no two edges share a sequence, so the provenance edges are strictly
      ascending. */
  lemma EdgesStrictlyAscend(log: seq<AttestationEdge>, edges: seq<AttestationEdge>)
    requires DistinctSequences(Values(log)) && NoDuplicates(edges) && Ascending(EdgeOrder, edges)
    requires forall e :: e in edges ==> e in log
    ensures StrictlyAscending(EdgeOrder, edges)
  {
    forall i, j | 0 <= i < j < |edges| ensures EdgeOrder(edges[i]) < EdgeOrder(edges[j]) {
      assert edges[i] in log && edges[j] in log;
      var m :| 0 <= m < |log| && log[m] == edges[i];
      var n :| 0 <= n < |log| && log[n] == edges[j];
      assert Values(log)[m].sequence != Values(log)[n].sequence;
    }
  }

  /** On a projected graph a policy and a target have one result: nothing in it depends on the
      order in which the maps of policy, nodes and edges are iterated. */
  lemma EvaluationDetermined(graph: Graph, p: Policy, target: IdentityKey, v: ConfidenceResult, w: ConfidenceResult)
    requires graph.Valid() && DistinctSequences(graph.View().edges)
    requires Explains(graph, p, target, v) && Explains(graph, p, target, w)
    ensures v == w
  {
    StrictlyAscendingUnique(DigestValue, v.records, w.records);
    StrictlyAscendingUnique(KeyValue, v.nodes, w.nodes);
    EdgesStrictlyAscend(graph.log, v.edges);
    EdgesStrictlyAscend(graph.log, w.edges);
    StrictlyAscendingUnique(EdgeOrder, v.edges, w.edges);
  }
}

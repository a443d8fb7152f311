/** The trust-path search as a function of an adjacency: what it enumerates, and in what order. */
module TrustPaths {
  import opened Prelude
  import opened Reals

  datatype PathHop = PathHop(from: IdentityKey, to: IdentityKey, topic: Bytes, digest: Digest, sequence: Uint64)

  datatype PathTrace = PathTrace(root: IdentityKey, rootWeight: real, hops: seq<PathHop>, weight: real)

  /** The usable hops out of each identity, in the order the search takes them. */
  type Adjacency = IdentityKey -> seq<PathHop>

  datatype Search = Search(adjacent: Adjacency, target: IdentityKey, decay: real, floor: real, maxHops: int)

  /** Where a search stands: the arguments of `findPaths` that change along a path. Its `depth`
      is always one more than the hops taken. */
  datatype Trail = Trail(root: IdentityKey, rootWeight: real, at: IdentityKey, weight: real,
                         hops: seq<PathHop>, visited: set<IdentityKey>)

  function Start(root: IdentityKey, weight: real): Trail {
    Trail(root, weight, root, weight, [], {root})
  }

  function Step(s: Search, t: Trail, hop: PathHop): Trail {
    Trail(t.root, t.rootWeight, hop.to, Times(t.weight, s.decay), t.hops + [hop], t.visited + {hop.to})
  }

  function Budget(s: Search, t: Trail): nat {
    if |t.hops| < s.maxHops then s.maxHops - |t.hops| else 0
  }

  /** `findPaths`: everything it appends, in order. */
  function Explore(s: Search, t: Trail): (paths: seq<PathTrace>)
    decreases Budget(s, t), 2, 0
  {
    if |t.hops| + 1 > s.maxHops then [] else Fan(s, t, s.adjacent(t.at))
  }

  function Fan(s: Search, t: Trail, out: seq<PathHop>): (paths: seq<PathTrace>)
    requires |t.hops| < s.maxHops
    decreases Budget(s, t), 1, |out|
  {
    if out == [] then [] else Branch(s, t, out[0]) + Fan(s, t, out[1..])
  }

  function Branch(s: Search, t: Trail, hop: PathHop): (paths: seq<PathTrace>)
    requires |t.hops| < s.maxHops
    decreases Budget(s, t), 0, 0
  {
    if hop.to in t.visited then []
    else if Times(t.weight, s.decay) < s.floor then []
    else if hop.to == s.target then [PathTrace(t.root, t.rootWeight, t.hops + [hop], Times(t.weight, s.decay))]
    else if |t.hops| + 1 < s.maxHops then Explore(s, Step(s, t, hop))
    else []
  }

  // ----- what one trail leads to -----

  function Damped(weight: real, decay: real, hops: nat): real
    decreases hops
  {
    if hops == 0 then weight else Damped(Times(weight, decay), decay, hops - 1)
  }

  /** The moves the search makes from `t`, read as one path. */
  ghost predicate Continues(s: Search, t: Trail, suffix: seq<PathHop>)
    decreases |suffix|
  {
    && suffix != [] && |t.hops| < s.maxHops
    && suffix[0] in s.adjacent(t.at)
    && suffix[0].to !in t.visited
    && Times(t.weight, s.decay) >= s.floor
    && (if suffix[0].to == s.target then |suffix| == 1 else Continues(s, Step(s, t, suffix[0]), suffix[1..]))
  }

  ghost predicate Extends(s: Search, t: Trail, p: PathTrace) {
    && |p.hops| > |t.hops| && p.hops[..|t.hops|] == t.hops
    && p.root == t.root && p.rootWeight == t.rootWeight
    && p.weight == Damped(t.weight, s.decay, |p.hops| - |t.hops|)
    && Continues(s, t, p.hops[|t.hops|..])
  }

  lemma StepExtends(s: Search, t: Trail, hop: PathHop, p: PathTrace)
    requires |t.hops| < s.maxHops && hop in s.adjacent(t.at)
    requires hop.to !in t.visited && Times(t.weight, s.decay) >= s.floor && hop.to != s.target
    ensures Extends(s, Step(s, t, hop), p) <==>
            Extends(s, t, p) && p.hops[|t.hops|] == hop
  {
    var n := |t.hops|;
    if |p.hops| > n && p.hops[n] == hop {
      var suffix := p.hops[n..];
      assert suffix[0] == hop && suffix[1..] == p.hops[n + 1..];
      PrefixSplit(p.hops, t.hops, hop);
      assert Continues(s, t, suffix) <==> Continues(s, Step(s, t, hop), suffix[1..]);
      assert Damped(t.weight, s.decay, |p.hops| - n) == Damped(Times(t.weight, s.decay), s.decay, |p.hops| - n - 1);
    } else if |p.hops| > n {
      assert p.hops[..n + 1][n] == p.hops[n];
    }
  }

  lemma PrefixSplit(hops: seq<PathHop>, front: seq<PathHop>, hop: PathHop)
    requires |hops| > |front| && hops[|front|] == hop
    ensures hops[..|front| + 1] == front + [hop] <==> hops[..|front|] == front
  {
    var n := |front|;
    assert hops[..n + 1] == hops[..n] + [hop];
    assert (front + [hop])[..n] == front && hops[..n + 1][..n] == hops[..n];
  }

  lemma {:induction false} ExploreExact(s: Search, t: Trail, p: PathTrace)
    ensures p in Explore(s, t) <==> Extends(s, t, p)
    decreases Budget(s, t), 2, 0
  {
    if |t.hops| < s.maxHops {
      FanExact(s, t, s.adjacent(t.at), p);
      if Extends(s, t, p) {
        assert p.hops[|t.hops|..][0] == p.hops[|t.hops|];
      }
    }
  }

  lemma {:induction false} FanExact(s: Search, t: Trail, out: seq<PathHop>, p: PathTrace)
    requires |t.hops| < s.maxHops && forall i :: 0 <= i < |out| ==> out[i] in s.adjacent(t.at)
    ensures p in Fan(s, t, out) <==> Extends(s, t, p) && p.hops[|t.hops|] in out
    decreases Budget(s, t), 1, |out|
  {
    if out != [] {
      BranchExact(s, t, out[0], p);
      FanExact(s, t, out[1..], p);
      assert out == [out[0]] + out[1..];
    }
  }

  lemma {:induction false} BranchExact(s: Search, t: Trail, hop: PathHop, p: PathTrace)
    requires |t.hops| < s.maxHops && hop in s.adjacent(t.at)
    ensures p in Branch(s, t, hop) <==> Extends(s, t, p) && p.hops[|t.hops|] == hop
    decreases Budget(s, t), 0, 0
  {
    var n := |t.hops|;
    if |p.hops| > n { assert p.hops[n..][0] == p.hops[n]; }
    if hop.to !in t.visited && Times(t.weight, s.decay) >= s.floor {
      if hop.to == s.target {
        ArrivalExact(s, t, hop, p);
      } else {
        StepExtends(s, t, hop, p);
        ExploreExact(s, Step(s, t, hop), p);
      }
    }
  }

  lemma ArrivalExact(s: Search, t: Trail, hop: PathHop, p: PathTrace)
    requires |t.hops| < s.maxHops && hop in s.adjacent(t.at)
    requires hop.to !in t.visited && Times(t.weight, s.decay) >= s.floor && hop.to == s.target
    ensures p == PathTrace(t.root, t.rootWeight, t.hops + [hop], Times(t.weight, s.decay)) <==>
            Extends(s, t, p) && p.hops[|t.hops|] == hop
  {
    var n := |t.hops|;
    assert Damped(t.weight, s.decay, 1) == Damped(Times(t.weight, s.decay), s.decay, 0);
    if p == PathTrace(t.root, t.rootWeight, t.hops + [hop], Times(t.weight, s.decay)) {
      assert p.hops[n..] == [hop] && p.hops[..n] == t.hops;
    } else if |p.hops| > n && p.hops[n] == hop {
      assert p.hops[n..][0] == hop;
      assert p.hops == p.hops[..n] + p.hops[n..];
      assert |p.hops| == n + 1 ==> p.hops[n..] == [hop];
    }
  }

  // ----- the same paths, said outright -----

  /** Consecutive hops are usable and each starts where the last one ended. */
  ghost predicate Walk(adjacent: Adjacency, at: IdentityKey, hops: seq<PathHop>) {
    forall i :: 0 <= i < |hops| ==> hops[i] in adjacent(Origin(at, hops, i))
  }

  function Origin(at: IdentityKey, hops: seq<PathHop>, i: nat): IdentityKey
    requires i <= |hops|
  {
    if i == 0 then at else hops[i - 1].to
  }

  /** No identity is visited twice, nor one already visited before. */
  ghost predicate Simple(visited: set<IdentityKey>, hops: seq<PathHop>) {
    && (forall i :: 0 <= i < |hops| ==> hops[i].to !in visited)
    && (forall i, j :: 0 <= i < j < |hops| ==> hops[i].to != hops[j].to)
  }

  /** A simple path of usable hops from `t` to the target, within the hop bound, whose damped
      weight at the end reaches the floor. */
  ghost predicate IsPath(s: Search, t: Trail, hops: seq<PathHop>) {
    && hops != [] && |t.hops| + |hops| <= s.maxHops
    && Walk(s.adjacent, t.at, hops) && Simple(t.visited, hops)
    && hops[|hops| - 1].to == s.target
    && Damped(t.weight, s.decay, |hops|) >= s.floor
  }

  lemma {:induction false} DampedShrinks(weight: real, decay: real, hops: nat)
    requires 0.0 < decay < 1.0 && weight > 0.0
    ensures 0.0 < Damped(weight, decay, hops) <= weight
    ensures hops > 0 ==> Damped(weight, decay, hops) <= Times(weight, decay) < weight
    decreases hops
  {
    if hops > 0 {
      TimesShrinks(weight, decay);
      DampedShrinks(Times(weight, decay), decay, hops - 1);
    }
  }

  /** The weight of a path: that of its root times the decay to the number of hops. */
  function PathWeight(rootWeight: real, decay: real, hops: nat): real {
    rootWeight * Power(decay, hops)
  }

  /** Damping at every hop comes to that one product. */
  lemma {:induction false} DampedIsPower(weight: real, decay: real, hops: nat)
    ensures Damped(weight, decay, hops) == PathWeight(weight, decay, hops)
    decreases hops
  {
    if hops > 0 {
      DampedIsPower(weight * decay, decay, hops - 1);
      ProductAssoc(weight, decay, Power(decay, hops - 1));
    }
  }

  lemma WalkFront(adjacent: Adjacency, at: IdentityKey, hops: seq<PathHop>)
    requires hops != []
    ensures Walk(adjacent, at, hops) <==> hops[0] in adjacent(at) && Walk(adjacent, hops[0].to, hops[1..])
  {
    var rest := hops[1..];
    forall i | 0 <= i < |rest| ensures rest[i] == hops[i + 1] && Origin(hops[0].to, rest, i) == Origin(at, hops, i + 1) {
    }
    if hops[0] in adjacent(at) && Walk(adjacent, hops[0].to, rest) {
      forall i | 0 <= i < |hops| ensures hops[i] in adjacent(Origin(at, hops, i)) {
        if i > 0 { assert rest[i - 1] in adjacent(Origin(hops[0].to, rest, i - 1)); }
      }
    }
    if Walk(adjacent, at, hops) {
      assert hops[0] in adjacent(Origin(at, hops, 0));
      forall i | 0 <= i < |rest| ensures rest[i] in adjacent(Origin(hops[0].to, rest, i)) {
        assert hops[i + 1] in adjacent(Origin(at, hops, i + 1));
      }
    }
  }

  lemma SimpleFront(visited: set<IdentityKey>, hops: seq<PathHop>)
    requires hops != []
    ensures Simple(visited, hops) <==> hops[0].to !in visited && Simple(visited + {hops[0].to}, hops[1..])
  {
    var rest := hops[1..];
    assert forall i :: 0 <= i < |rest| ==> rest[i] == hops[i + 1];
    if hops[0].to !in visited && Simple(visited + {hops[0].to}, rest) {
      forall i | 0 <= i < |hops| ensures hops[i].to !in visited {
        if i > 0 { assert rest[i - 1].to !in visited + {hops[0].to}; }
      }
      forall i, j | 0 <= i < j < |hops| ensures hops[i].to != hops[j].to {
        assert rest[j - 1].to !in visited + {hops[0].to};
        if i > 0 { assert rest[i - 1].to != rest[j - 1].to; }
      }
    }
  }

  /** The depth-first moves, with their cut-offs at every hop, reach exactly the simple paths:
      pruning a prefix below the floor loses nothing because weights only shrink. */
  lemma {:induction false} ContinuesExact(s: Search, t: Trail, hops: seq<PathHop>)
    requires 0.0 < s.decay < 1.0 && t.weight > 0.0
    ensures Continues(s, t, hops) <==> IsPath(s, t, hops)
    decreases |hops|
  {
    if hops != [] {
      IsPathFront(s, t, hops);
      if |hops| > 1 { ContinuesExact(s, Step(s, t, hops[0]), hops[1..]); }
    }
  }

  /** A path is a first hop and, unless that arrives, a path from where it leads. */
  lemma IsPathFront(s: Search, t: Trail, hops: seq<PathHop>)
    requires 0.0 < s.decay < 1.0 && t.weight > 0.0 && hops != []
    ensures IsPath(s, t, hops) <==>
            && |t.hops| < s.maxHops
            && hops[0] in s.adjacent(t.at) && hops[0].to !in t.visited
            && Times(t.weight, s.decay) >= s.floor
            && (if hops[0].to == s.target then |hops| == 1 else |hops| > 1 && IsPath(s, Step(s, t, hops[0]), hops[1..]))
  {
    var rest, n := hops[1..], |hops| - 1;
    WalkFront(s.adjacent, t.at, hops);
    SimpleFront(t.visited, hops);
    DampedShrinks(t.weight, s.decay, |hops|);
    assert Damped(t.weight, s.decay, |hops|) == Damped(Times(t.weight, s.decay), s.decay, n) && |rest| == n;
    if n == 0 {
      assert Walk(s.adjacent, hops[0].to, rest) && Simple(t.visited + {hops[0].to}, rest);
    } else {
      ArrivesLast(s.target, t.visited, hops);
    }
  }

  /** On a simple path the target can only be the last stop. */
  lemma ArrivesLast(target: IdentityKey, visited: set<IdentityKey>, hops: seq<PathHop>)
    requires |hops| > 1
    ensures hops[1..][|hops[1..]| - 1] == hops[|hops| - 1]
    ensures Simple(visited, hops) && hops[|hops| - 1].to == target ==> hops[0].to != target
  {
  }

  // ----- order -----

  /** `p` and `q` part at hop `i`, where `p` takes an earlier usable hop than `q`. */
  ghost predicate PartsAt(adjacent: Adjacency, p: PathTrace, q: PathTrace, i: nat, a: nat, b: nat) {
    && i < |p.hops| && i < |q.hops| && p.hops[..i] == q.hops[..i]
    && var out := adjacent(Origin(p.root, p.hops, i));
       a < b < |out| && p.hops[i] == out[a] && q.hops[i] == out[b]
  }

  ghost predicate Precedes(adjacent: Adjacency, p: PathTrace, q: PathTrace) {
    p.root == q.root && exists i: nat, a: nat, b: nat :: PartsAt(adjacent, p, q, i, a, b)
  }

  ghost predicate InOrder(adjacent: Adjacency, paths: seq<PathTrace>) {
    forall i, j :: 0 <= i < j < |paths| ==> Precedes(adjacent, paths[i], paths[j])
  }

  ghost predicate OnTrail(t: Trail) {
    t.at == Origin(t.root, t.hops, |t.hops|)
  }

  lemma {:induction false} ExploreInOrder(s: Search, t: Trail)
    requires OnTrail(t)
    ensures InOrder(s.adjacent, Explore(s, t))
    decreases Budget(s, t), 2, 0
  {
    if |t.hops| < s.maxHops {
      var out := s.adjacent(t.at);
      FanInOrder(s, t, 0);
      assert out[0..] == out;
    }
  }

  lemma {:induction false} FanInOrder(s: Search, t: Trail, k: nat)
    requires OnTrail(t) && |t.hops| < s.maxHops && k <= |s.adjacent(t.at)|
    ensures InOrder(s.adjacent, Fan(s, t, s.adjacent(t.at)[k..]))
    decreases Budget(s, t), 1, |s.adjacent(t.at)| - k
  {
    var out := s.adjacent(t.at);
    if k < |out| {
      assert out[k..][1..] == out[k + 1..];
      FanInOrder(s, t, k + 1);
      BranchInOrder(s, t, out[k]);
      forall p, q | p in Branch(s, t, out[k]) && q in Fan(s, t, out[k + 1..]) ensures Precedes(s.adjacent, p, q) {
        BranchExact(s, t, out[k], p);
        FanExact(s, t, out[k + 1..], q);
        LaterHop(s, t, k, p, q);
      }
      InOrderConcat(s.adjacent, Branch(s, t, out[k]), Fan(s, t, out[k + 1..]));
    }
  }

  lemma LaterHop(s: Search, t: Trail, k: nat, p: PathTrace, q: PathTrace)
    requires OnTrail(t) && k < |s.adjacent(t.at)|
    requires Extends(s, t, p) && Extends(s, t, q)
    requires p.hops[|t.hops|] == s.adjacent(t.at)[k] && q.hops[|t.hops|] in s.adjacent(t.at)[k + 1..]
    ensures Precedes(s.adjacent, p, q)
  {
    var n, out := |t.hops|, s.adjacent(t.at);
    var j :| 0 <= j < |out[k + 1..]| && out[k + 1..][j] == q.hops[n];
    assert out[k + 1 + j] == q.hops[n];
    assert Origin(p.root, p.hops, n) == t.at by {
      if n > 0 { assert p.hops[..n][n - 1] == t.hops[n - 1]; }
    }
    assert PartsAt(s.adjacent, p, q, n, k, k + 1 + j);
  }

  lemma {:induction false} BranchInOrder(s: Search, t: Trail, hop: PathHop)
    requires OnTrail(t) && |t.hops| < s.maxHops
    ensures InOrder(s.adjacent, Branch(s, t, hop))
    decreases Budget(s, t), 0, 0
  {
    if hop.to !in t.visited && Times(t.weight, s.decay) >= s.floor && hop.to != s.target && |t.hops| + 1 < s.maxHops {
      ExploreInOrder(s, Step(s, t, hop));
    }
  }

  lemma InOrderConcat(adjacent: Adjacency, a: seq<PathTrace>, b: seq<PathTrace>)
    requires InOrder(adjacent, a) && InOrder(adjacent, b)
    requires forall p, q :: p in a && q in b ==> Precedes(adjacent, p, q)
    ensures InOrder(adjacent, a + b)
  {
    var c := a + b;
    forall i, j | 0 <= i < j < |c| ensures Precedes(adjacent, c[i], c[j]) {
      if j < |a| {
        assert Precedes(adjacent, a[i], a[j]);
      } else if i >= |a| {
        assert Precedes(adjacent, b[i - |a|], b[j - |a|]);
      } else {
        assert c[i] in a && c[j] in b;
      }
    }
  }

  ghost predicate DistinctHops(adjacent: Adjacency) {
    forall k :: NoDuplicates(adjacent(k))
  }

  lemma PrecedesDistinct(adjacent: Adjacency, p: PathTrace, q: PathTrace)
    requires DistinctHops(adjacent) && Precedes(adjacent, p, q)
    ensures p != q
  {
    var i: nat, a: nat, b: nat :| PartsAt(adjacent, p, q, i, a, b);
    assert NoDuplicates(adjacent(Origin(p.root, p.hops, i)));
  }

  ghost predicate BySequence(adjacent: Adjacency) {
    forall k, i, j :: 0 <= i < j < |adjacent(k)| ==> adjacent(k)[i].sequence < adjacent(k)[j].sequence
  }

  /** Lexicographic order of the hops' ledger sequences. */
  ghost predicate SequenceLess(p: seq<PathHop>, q: seq<PathHop>) {
    exists i :: 0 <= i < |p| && i < |q| && p[..i] == q[..i] && p[i].sequence < q[i].sequence
  }

  lemma PrecedesBySequence(adjacent: Adjacency, p: PathTrace, q: PathTrace)
    requires BySequence(adjacent) && Precedes(adjacent, p, q)
    ensures SequenceLess(p.hops, q.hops)
  {
    var i: nat, a: nat, b: nat :| PartsAt(adjacent, p, q, i, a, b);
    var out := adjacent(Origin(p.root, p.hops, i));
    assert out[a].sequence < out[b].sequence;
  }

  // ----- all roots -----

  datatype Root = Root(key: IdentityKey, weight: real)

  /** The loop over trust roots; the target itself is skipped. */
  function AllPaths(s: Search, roots: seq<Root>): (paths: seq<PathTrace>) {
    if roots == [] then []
    else
      var last := roots[|roots| - 1];
      AllPaths(s, roots[..|roots| - 1]) + (if last.key == s.target then [] else Explore(s, Start(last.key, last.weight)))
  }

  /** A contributing path: from a root other than the target, with its damped weight. */
  ghost predicate Contributes(s: Search, roots: seq<Root>, p: PathTrace) {
    && Root(p.root, p.rootWeight) in roots && p.root != s.target
    && IsPath(s, Start(p.root, p.rootWeight), p.hops)
    && p.weight == Damped(p.rootWeight, s.decay, |p.hops|)
  }

  lemma StartExact(s: Search, root: Root, p: PathTrace)
    requires 0.0 < s.decay < 1.0 && root.weight > 0.0
    ensures p in Explore(s, Start(root.key, root.weight)) <==>
            && p.root == root.key && p.rootWeight == root.weight
            && IsPath(s, Start(p.root, p.rootWeight), p.hops)
            && p.weight == Damped(p.rootWeight, s.decay, |p.hops|)
  {
    var t := Start(root.key, root.weight);
    ExploreExact(s, t, p);
    ContinuesExact(s, t, p.hops);
    assert p.hops[0..] == p.hops && p.hops[..0] == [];
  }

  /** The search lists exactly the contributing paths. */
  lemma {:induction false} AllPathsExact(s: Search, roots: seq<Root>, p: PathTrace)
    requires 0.0 < s.decay < 1.0 && forall i :: 0 <= i < |roots| ==> roots[i].weight > 0.0
    ensures p in AllPaths(s, roots) <==> Contributes(s, roots, p)
  {
    if roots != [] {
      var init, last := roots[..|roots| - 1], roots[|roots| - 1];
      AllPathsExact(s, init, p);
      StartExact(s, last, p);
      assert roots == init + [last];
    }
  }

  ghost predicate RootsAscend(roots: seq<Root>) {
    forall i, j :: 0 <= i < j < |roots| ==> BytesLess(roots[i].key, roots[j].key)
  }

  /** Paths by root, then by the hops taken. */
  ghost predicate Before(adjacent: Adjacency, p: PathTrace, q: PathTrace) {
    BytesLess(p.root, q.root) || Precedes(adjacent, p, q)
  }

  ghost predicate PathsAscend(adjacent: Adjacency, paths: seq<PathTrace>) {
    forall i, j :: 0 <= i < j < |paths| ==> Before(adjacent, paths[i], paths[j])
  }

  lemma {:induction false} AllPathsRoot(s: Search, roots: seq<Root>, p: PathTrace)
    requires p in AllPaths(s, roots)
    ensures exists i :: 0 <= i < |roots| && roots[i].key == p.root
  {
    var init, last := roots[..|roots| - 1], roots[|roots| - 1];
    if p in AllPaths(s, init) {
      AllPathsRoot(s, init, p);
      var i :| 0 <= i < |init| && init[i].key == p.root;
      assert roots[i] == init[i];
    } else {
      ExploreExact(s, Start(last.key, last.weight), p);
    }
  }

  lemma {:induction false} AllPathsAscend(s: Search, roots: seq<Root>)
    requires RootsAscend(roots)
    ensures PathsAscend(s.adjacent, AllPaths(s, roots))
  {
    if roots != [] {
      var init, last := roots[..|roots| - 1], roots[|roots| - 1];
      AllPathsAscend(s, init);
      if last.key != s.target {
        var a, b := AllPaths(s, init), Explore(s, Start(last.key, last.weight));
        ExploreInOrder(s, Start(last.key, last.weight));
        forall p, q | p in a && q in b ensures Before(s.adjacent, p, q) {
          AllPathsRoot(s, init, p);
          var i :| 0 <= i < |init| && init[i].key == p.root;
          assert roots[i] == init[i];
          ExploreExact(s, Start(last.key, last.weight), q);
        }
        AscendConcat(s.adjacent, a, b);
      }
    }
  }

  lemma AscendConcat(adjacent: Adjacency, a: seq<PathTrace>, b: seq<PathTrace>)
    requires PathsAscend(adjacent, a) && InOrder(adjacent, b)
    requires forall p, q :: p in a && q in b ==> Before(adjacent, p, q)
    ensures PathsAscend(adjacent, a + b)
  {
    var c := a + b;
    forall i, j | 0 <= i < j < |c| ensures Before(adjacent, c[i], c[j]) {
      if j < |a| {
        assert Before(adjacent, a[i], a[j]);
      } else if i >= |a| {
        assert Precedes(adjacent, b[i - |a|], b[j - |a|]);
      } else {
        assert c[i] in a && c[j] in b;
      }
    }
  }

  /** No path is listed twice. */
  lemma AllPathsDistinct(s: Search, roots: seq<Root>)
    requires RootsAscend(roots) && DistinctHops(s.adjacent)
    ensures NoDuplicates(AllPaths(s, roots))
  {
    AllPathsAscend(s, roots);
    var paths := AllPaths(s, roots);
    forall i, j | 0 <= i < j < |paths| ensures paths[i] != paths[j] {
      assert Before(s.adjacent, paths[i], paths[j]);
      if Precedes(s.adjacent, paths[i], paths[j]) { PrecedesDistinct(s.adjacent, paths[i], paths[j]); }
      BytesLessIsNumeric(paths[i].root, paths[j].root);
    }
  }
}

/** Noisy-OR over path weights: bounds, extremes and monotonicity of the confidence score. */
module Score {
  import opened Prelude
  import opened Reals
  import opened TrustPaths

  /** The loop that multiplies `unconfidence` by `1 - weight` of each path. */
  function Unconfidence(start: real, paths: seq<PathTrace>): real {
    if paths == [] then start
    else Times(Unconfidence(start, paths[..|paths| - 1]), 1.0 - paths[|paths| - 1].weight)
  }

  function Confidence(direct: real, paths: seq<PathTrace>): real {
    1.0 - Unconfidence(1.0 - direct, paths)
  }

  function Clamp(x: real): real {
    var upper := if x < 1.0 then x else 1.0;
    if upper < 0.0 then 0.0 else upper
  }

  ghost predicate ProperWeights(paths: seq<PathTrace>) {
    forall i :: 0 <= i < |paths| ==> 0.0 < paths[i].weight < 1.0
  }

  lemma TimesBelowFactor(x: real, f: real)
    requires 0.0 <= x <= 1.0 && 0.0 <= f
    ensures Times(x, f) <= f
  {
    TimesMonotone(x, 1.0, f);
  }

  lemma {:induction false} UnconfidenceBounds(start: real, paths: seq<PathTrace>)
    requires 0.0 <= start <= 1.0 && ProperWeights(paths)
    ensures 0.0 <= Unconfidence(start, paths) <= start
    ensures Unconfidence(start, paths) == 0.0 <==> start == 0.0
    ensures start > 0.0 && paths != [] ==> Unconfidence(start, paths) < start
    ensures forall i :: 0 <= i < |paths| ==> Unconfidence(start, paths) <= 1.0 - paths[i].weight
  {
    if paths != [] {
      var init, last := paths[..|paths| - 1], paths[|paths| - 1];
      UnconfidenceBounds(start, init);
      TimesShrinks(Unconfidence(start, init), 1.0 - last.weight);
      TimesBelowFactor(Unconfidence(start, init), 1.0 - last.weight);
      forall i | 0 <= i < |paths| ensures Unconfidence(start, paths) <= 1.0 - paths[i].weight {
        if i < |init| { assert init[i] == paths[i]; }
      }
    }
  }

  /** The score needs no clamp; it is at least the direct trust and every path weight; it is 0
      exactly when the target is no root and no path exists, and 1 exactly when the target is a
      root of weight 1. */
  lemma ConfidenceBounds(direct: real, paths: seq<PathTrace>)
    requires 0.0 <= direct <= 1.0 && ProperWeights(paths)
    ensures var score := Confidence(direct, paths);
            && 0.0 <= score <= 1.0 && Clamp(score) == score
            && direct <= score && (forall i :: 0 <= i < |paths| ==> paths[i].weight <= score)
            && (score == 0.0 <==> direct == 0.0 && paths == [])
            && (score == 1.0 <==> direct == 1.0)
  {
    UnconfidenceBounds(1.0 - direct, paths);
  }

  // ----- noisy-OR -----

  /** The product of `1 - weight` over the paths. */
  function Doubt(paths: seq<PathTrace>): real {
    if paths == [] then 1.0 else Doubt(paths[..|paths| - 1]) * (1.0 - paths[|paths| - 1].weight)
  }

  function NoisyOr(direct: real, paths: seq<PathTrace>): real {
    1.0 - (1.0 - direct) * Doubt(paths)
  }

  lemma {:induction false} UnconfidenceIsProduct(start: real, paths: seq<PathTrace>)
    ensures Unconfidence(start, paths) == start * Doubt(paths)
  {
    if paths != [] {
      var init := paths[..|paths| - 1];
      UnconfidenceIsProduct(start, init);
      ProductAssoc(start, Doubt(init), 1.0 - paths[|paths| - 1].weight);
    }
  }

  /** The score is noisy-OR of the direct trust and the path weights. */
  lemma ConfidenceIsNoisyOr(direct: real, paths: seq<PathTrace>)
    ensures Confidence(direct, paths) == NoisyOr(direct, paths)
  {
    UnconfidenceIsProduct(1.0 - direct, paths);
  }

  /** Noisy-OR by its law: with no path the direct trust, and each further path takes its weight's
      share of the doubt that is left. */
  lemma ConfidenceLaw(direct: real, paths: seq<PathTrace>, p: PathTrace)
    ensures Confidence(direct, []) == direct
    ensures var s := Confidence(direct, paths);
            Confidence(direct, paths + [p]) == s + (1.0 - s) * p.weight
  {
    UnconfidenceLast(1.0 - direct, paths, p);
    var u := Unconfidence(1.0 - direct, paths);
    assert Times(u, 1.0 - p.weight) == u - u * p.weight;
  }

  lemma ConfidenceOfOne(p: PathTrace)
    ensures Confidence(0.0, [p]) == p.weight
  {
    ConfidenceLaw(0.0, [], p);
    assert [] + [p] == [p];
  }

  // ----- monotonicity -----

  lemma {:induction false} UnconfidenceConcat(start: real, a: seq<PathTrace>, b: seq<PathTrace>)
    ensures Unconfidence(start, a + b) == Unconfidence(Unconfidence(start, a), b)
    decreases |b|
  {
    if b == [] {
      assert a + b == a;
    } else {
      var init := b[..|b| - 1];
      UnconfidenceConcat(start, a, init);
      assert (a + b)[..|a + b| - 1] == a + init;
    }
  }

  lemma {:induction false} UnconfidenceScales(start: real, f: real, paths: seq<PathTrace>)
    ensures Unconfidence(Times(start, f), paths) == Times(Unconfidence(start, paths), f)
    decreases |paths|
  {
    if paths != [] {
      var init, last := paths[..|paths| - 1], paths[|paths| - 1];
      UnconfidenceScales(start, f, init);
      TimesCommutes(Unconfidence(start, init), f, 1.0 - last.weight);
    }
  }

  /** Taking one path out divides its factor out, wherever it stood. */
  lemma UnconfidenceMiddle(start: real, a: seq<PathTrace>, x: PathTrace, b: seq<PathTrace>)
    ensures Unconfidence(start, (a + [x]) + b) == Times(Unconfidence(start, a + b), 1.0 - x.weight)
  {
    UnconfidenceConcat(start, a + [x], b);
    UnconfidenceLast(start, a, x);
    UnconfidenceScales(Unconfidence(start, a), 1.0 - x.weight, b);
    UnconfidenceConcat(start, a, b);
  }

  lemma UnconfidenceLast(start: real, a: seq<PathTrace>, x: PathTrace)
    ensures Unconfidence(start, a + [x]) == Times(Unconfidence(start, a), 1.0 - x.weight)
  {
    assert (a + [x])[..|a + [x]| - 1] == a;
  }

  /** More paths never mean less confidence, whatever their order. */
  lemma {:induction false} UnconfidenceMonotone(start: real, fewer: seq<PathTrace>, more: seq<PathTrace>)
    requires 0.0 <= start <= 1.0 && ProperWeights(more)
    requires NoDuplicates(fewer) && forall p :: p in fewer ==> p in more
    ensures Unconfidence(start, more) <= Unconfidence(start, fewer)
    decreases |fewer|
  {
    if fewer == [] {
      UnconfidenceBounds(start, more);
    } else {
      var init, x := fewer[..|fewer| - 1], fewer[|fewer| - 1];
      var a, b := TakeOut(fewer, more);
      UnconfidenceMonotone(start, init, a + b);
      UnconfidenceMiddle(start, a, x, b);
      TimesMonotone(Unconfidence(start, a + b), Unconfidence(start, init), 1.0 - x.weight);
    }
  }

  /** Where the last of `fewer` stands in `more`; the others are in what is left. */
  lemma TakeOut(fewer: seq<PathTrace>, more: seq<PathTrace>) returns (a: seq<PathTrace>, b: seq<PathTrace>)
    requires fewer != [] && NoDuplicates(fewer) && ProperWeights(more)
    requires forall p :: p in fewer ==> p in more
    ensures more == (a + [fewer[|fewer| - 1]]) + b && ProperWeights(a + b)
    ensures forall p :: p in fewer[..|fewer| - 1] ==> p in a + b
    ensures 0.0 < fewer[|fewer| - 1].weight < 1.0
  {
    var init, x := fewer[..|fewer| - 1], fewer[|fewer| - 1];
    assert x in more;
    var k :| 0 <= k < |more| && more[k] == x;
    a, b := more[..k], more[k + 1..];
    var rest := a + b;
    forall p | p in init ensures p in rest {
      var i :| 0 <= i < |init| && init[i] == p;
      assert fewer[i] == p && p != x && p in more;
      var j :| 0 <= j < |more| && more[j] == p;
      assert rest[if j < k then j else j - 1] == p;
    }
    forall i | 0 <= i < |rest| ensures 0.0 < rest[i].weight < 1.0 {
      assert rest[i] == more[if i < k then i else i + 1];
    }
  }

  // ----- the score of a search -----

  function SearchScore(s: Search, roots: seq<Root>, direct: real): real {
    Confidence(direct, AllPaths(s, roots))
  }

  ghost predicate ProperSearch(s: Search, roots: seq<Root>) {
    && 0.0 < s.decay < 1.0
    && RootsAscend(roots) && (forall i :: 0 <= i < |roots| ==> 0.0 < roots[i].weight <= 1.0)
    && DistinctHops(s.adjacent)
  }

  lemma PathsAreProper(s: Search, roots: seq<Root>)
    requires ProperSearch(s, roots)
    ensures ProperWeights(AllPaths(s, roots))
  {
    var paths := AllPaths(s, roots);
    forall i | 0 <= i < |paths| ensures 0.0 < paths[i].weight < 1.0 {
      AllPathsExact(s, roots, paths[i]);
      DampedShrinks(paths[i].rootWeight, s.decay, |paths[i].hops|);
    }
  }

  /** Every hop usable in `a` is usable in `b`. */
  ghost predicate FewerHops(a: Adjacency, b: Adjacency) {
    forall k, hop :: hop in a(k) ==> hop in b(k)
  }

  lemma ContributesMonotone(a: Search, b: Search, roots: seq<Root>, p: PathTrace)
    requires FewerHops(a.adjacent, b.adjacent) && b == a.(adjacent := b.adjacent)
    requires Contributes(a, roots, p)
    ensures Contributes(b, roots, p)
  {
    forall i | 0 <= i < |p.hops| ensures p.hops[i] in b.adjacent(Origin(p.root, p.hops, i)) {
      assert p.hops[i] in a.adjacent(Origin(p.root, p.hops, i));
    }
  }

  /** Giving a search more usable hops never lowers its score. */
  lemma SearchScoreMonotone(a: Search, b: Search, roots: seq<Root>, direct: real)
    requires ProperSearch(a, roots) && ProperSearch(b, roots) && 0.0 <= direct <= 1.0
    requires FewerHops(a.adjacent, b.adjacent) && b == a.(adjacent := b.adjacent)
    ensures SearchScore(a, roots, direct) <= SearchScore(b, roots, direct)
  {
    forall p | p in AllPaths(a, roots) ensures p in AllPaths(b, roots) {
      AllPathsExact(a, roots, p);
      AllPathsExact(b, roots, p);
      ContributesMonotone(a, b, roots, p);
    }
    AllPathsDistinct(a, roots);
    PathsAreProper(b, roots);
    UnconfidenceMonotone(1.0 - direct, AllPaths(a, roots), AllPaths(b, roots));
  }
}

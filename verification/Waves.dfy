/** The longest-path layering of packages/verification/src/graph.ts. */
module Waves {
  import opened Outcomes
  import opened Text
  import opened Graph
  import opened VerifierGraph

  // ---- Dependency depth ----

  ghost predicate ChainFrom(g: DependencyGraph, id: string, p: seq<string>) {
    IsPath(g, p) && p[0] == id
  }

  /** The longest dependency chain that starts at `id` has `n` edges. */
  ghost predicate HasDepth(g: DependencyGraph, id: string, n: nat) {
    && (exists p :: ChainFrom(g, id, p) && |p| == n + 1)
    && (forall p :: ChainFrom(g, id, p) ==> |p| <= n + 1)
  }

  lemma DepthUnique(g: DependencyGraph, id: string, m: nat, n: nat)
    requires HasDepth(g, id, m) && HasDepth(g, id, n)
    ensures m == n
  {
  }

  lemma PrependToChain(g: DependencyGraph, id: string, d: string, q: seq<string>)
    requires id in g && d in g[id] && ChainFrom(g, d, q)
    ensures ChainFrom(g, id, [id] + q)
  {
    var p := [id] + q;
    forall i, j | 0 <= i < j < |p| && j == i + 1 ensures p[j] in g[p[i]] {
      if i > 0 { assert q[i] in g[q[i - 1]]; }
    }
  }

  lemma DependencyIsShallower(g: DependencyGraph, id: string, m: nat, d: string, n: nat)
    requires id in g && d in g[id] && HasDepth(g, id, m) && HasDepth(g, d, n)
    ensures n < m
  {
    var q :| ChainFrom(g, d, q) && |q| == n + 1;
    PrependToChain(g, id, d, q);
  }

  /** Along a longest chain the depth falls by one at each step. */
  lemma DepthAlongChain(g: DependencyGraph, id: string, n: nat, p: seq<string>, j: nat)
    requires HasDepth(g, id, n) && ChainFrom(g, id, p) && |p| == n + 1 && j <= n
    ensures HasDepth(g, p[j], n - j)
  {
    assert ChainFrom(g, p[j], p[j..]);
    forall q | ChainFrom(g, p[j], q) ensures |q| <= n - j + 1 {
      var r := p[..j] + q;
      assert ChainFrom(g, id, r) by {
        forall i, k | 0 <= i < k < |r| && k == i + 1 ensures r[k] in g[r[i]] {
          if i < j { assert r[k] == p[k] && r[i] == p[i]; }
          else { assert r[k] == q[k - j] && r[i] == q[i - j]; }
        }
      }
    }
  }

  // ---- Computing the depth ----

  /** The maximum of the values and zero. */
  function MaxOf(values: seq<nat>): (m: nat)
    ensures forall v | v in values :: v <= m
    ensures |values| == 0 ==> m == 0
    ensures |values| > 0 ==> m in values
  {
    if |values| == 0 then 0
    else
      var rest := MaxOf(values[1..]);
      assert values == [values[0]] + values[1..];
      if values[0] >= rest then values[0] else rest
  }

  function WaveAfter(deps: seq<string>, waveOf: map<string, nat>): nat
    requires forall d | d in deps :: d in waveOf
  {
    if deps == [] then 0 else MaxOf(seq(|deps|, i requires 0 <= i < |deps| => waveOf[deps[i]] + 1))
  }

  ghost predicate DepthsKnown(g: DependencyGraph, waveOf: map<string, nat>) {
    forall id {:trigger HasDepth(g, id, waveOf[id])} | id in waveOf :: id in g && HasDepth(g, id, waveOf[id])
  }

  lemma WaveAfterReached(g: DependencyGraph, id: string, waveOf: map<string, nat>) returns (p: seq<string>)
    requires DepthsKnown(g, waveOf) && id in g && forall d | d in g[id] :: d in waveOf
    ensures ChainFrom(g, id, p) && |p| == WaveAfter(g[id], waveOf) + 1
  {
    var deps := g[id];
    if deps == [] {
      p := [id];
    } else {
      var above := seq(|deps|, i requires 0 <= i < |deps| => waveOf[deps[i]] + 1);
      var k :| 0 <= k < |deps| && above[k] == MaxOf(above);
      assert HasDepth(g, deps[k], waveOf[deps[k]]);
      var q :| ChainFrom(g, deps[k], q) && |q| == waveOf[deps[k]] + 1;
      PrependToChain(g, id, deps[k], q);
      p := [id] + q;
    }
  }

  lemma WaveAfterBounds(g: DependencyGraph, id: string, waveOf: map<string, nat>, p: seq<string>)
    requires DepthsKnown(g, waveOf) && id in g && forall d | d in g[id] :: d in waveOf
    requires ChainFrom(g, id, p)
    ensures |p| <= WaveAfter(g[id], waveOf) + 1
  {
    if |p| > 1 {
      var deps := g[id];
      var above := seq(|deps|, i requires 0 <= i < |deps| => waveOf[deps[i]] + 1);
      assert p[1] in g[p[0]];
      var k :| 0 <= k < |deps| && deps[k] == p[1];
      assert above[k] in above;
      assert HasDepth(g, deps[k], waveOf[deps[k]]);
      assert ChainFrom(g, deps[k], p[1..]);
    }
  }

  lemma WaveAfterIsDepth(g: DependencyGraph, id: string, waveOf: map<string, nat>)
    requires DepthsKnown(g, waveOf) && id in g && forall d | d in g[id] :: d in waveOf
    ensures HasDepth(g, id, WaveAfter(g[id], waveOf))
  {
    var n := WaveAfter(g[id], waveOf);
    var p := WaveAfterReached(g, id, waveOf);
    forall q | ChainFrom(g, id, q) ensures |q| <= n + 1 {
      WaveAfterBounds(g, id, waveOf, q);
    }
  }

  lemma DepthsExtend(g: DependencyGraph, id: string, waveOf: map<string, nat>)
    requires DepthsKnown(g, waveOf) && id in g && forall d | d in g[id] :: d in waveOf
    ensures DepthsKnown(g, waveOf[id := WaveAfter(g[id], waveOf)])
  {
    WaveAfterIsDepth(g, id, waveOf);
    forall x | x in waveOf ensures HasDepth(g, x, waveOf[x]) {
      assert x in waveOf;
    }
  }

  method AssignWaves(g: DependencyGraph, order: seq<string>) returns (waveOf: map<string, nat>)
    requires Topological(g, order)
    ensures forall id :: id in waveOf <==> id in order
    ensures DepthsKnown(g, waveOf)
  {
    waveOf := map[];
    for i := 0 to |order|
      invariant forall id :: id in waveOf <==> id in order[..i]
      invariant DepthsKnown(g, waveOf)
    {
      var id := order[i];
      assert forall d | d in g[order[i]] :: d in order[..i];
      DepthsExtend(g, id, waveOf);
      waveOf := waveOf[id := WaveAfter(g[id], waveOf)];
      assert order[..i + 1] == order[..i] + [id];
    }
    assert order[..|order|] == order;
  }

  // ---- The waves ----

  ghost predicate Tidy(waves: seq<seq<string>>) {
    forall w | 0 <= w < |waves| :: Sorted(waves[w]) && Distinct(waves[w])
  }

  ghost predicate HasWave(g: DependencyGraph, waves: seq<seq<string>>, id: string) {
    exists w: nat :: w < |waves| && HasDepth(g, id, w)
  }

  ghost predicate ByDepth(g: DependencyGraph, waves: seq<seq<string>>) {
    && (forall w, id | 0 <= w < |waves| :: id in waves[w] <==> id in g && HasDepth(g, id, w))
    && (forall id {:trigger HasWave(g, waves, id)} | id in g :: HasWave(g, waves, id))
  }

  ghost predicate NoneEmpty(g: DependencyGraph, waves: seq<seq<string>>) {
    if |g| == 0 then waves == [[]] else waves != [] && forall w | 0 <= w < |waves| :: |waves[w]| > 0
  }

  /** Wave `w` lists, in id order and once each, the ids of depth `w`. */
  ghost predicate LongestPathLayers(g: DependencyGraph, waves: seq<seq<string>>) {
    Tidy(waves) && ByDepth(g, waves) && NoneEmpty(g, waves)
  }

  method FillWaves(order: seq<string>, waveOf: map<string, nat>, maxWave: nat) returns (waves: seq<seq<string>>)
    requires Distinct(order)
    requires forall id | id in order :: id in waveOf && waveOf[id] <= maxWave
    ensures |waves| == maxWave + 1
    ensures forall w | 0 <= w < |waves| :: Distinct(waves[w])
    ensures forall w, id | 0 <= w < |waves| :: id in waves[w] <==> id in order && waveOf[id] == w
  {
    waves := seq(maxWave + 1, _ => []);
    for i := 0 to |order|
      invariant |waves| == maxWave + 1
      invariant forall w, id | 0 <= w <= maxWave :: id in waves[w] <==> id in order[..i] && waveOf[id] == w
      invariant forall w | 0 <= w <= maxWave :: Distinct(waves[w])
    {
      var id := order[i];
      DistinctPrefix(order, i);
      assert order[..i + 1] == order[..i] + [id];
      var w := waveOf[id];
      DistinctAppend(waves[w], id);
      waves := waves[w := waves[w] + [id]];
    }
    assert order[..|order|] == order;
  }

  function SortEach(waves: seq<seq<string>>): (result: seq<seq<string>>)
    ensures |result| == |waves|
    ensures forall w, id | 0 <= w < |waves| :: id in result[w] <==> id in waves[w]
  {
    seq(|waves|, w requires 0 <= w < |waves| => Sort(waves[w]))
  }

  lemma DistinctPrefix(s: seq<string>, i: nat)
    requires Distinct(s) && i < |s|
    ensures s[i] !in s[..i]
  {
    assert s == s[..i] + [s[i]] + s[i + 1..];
    assert multiset(s)[s[i]] == 1;
    assert multiset(s) == multiset(s[..i]) + multiset{s[i]} + multiset(s[i + 1..]);
    assert s[i] !in multiset(s[..i]);
  }

  lemma DistinctAppend(s: seq<string>, x: string)
    requires Distinct(s) && x !in s
    ensures Distinct(s + [x])
  {
    assert x !in multiset(s);
  }

  lemma LayersAreFilled(g: DependencyGraph, waveOf: map<string, nat>, maxWave: nat, top: string,
                        waves: seq<seq<string>>)
    requires waveOf.Keys == g.Keys && DepthsKnown(g, waveOf) && |waves| == maxWave + 1
    requires top in g && waveOf[top] == maxWave
    requires forall w, id | 0 <= w < |waves| :: id in waves[w] <==> id in waveOf && waveOf[id] == w
    ensures forall w | 0 <= w < |waves| :: |waves[w]| > 0
  {
    assert HasDepth(g, top, waveOf[top]);
    var p :| ChainFrom(g, top, p) && |p| == maxWave + 1;
    forall w | 0 <= w < |waves| ensures |waves[w]| > 0 {
      var j := maxWave - w;
      DepthAlongChain(g, top, maxWave, p, j);
      assert HasDepth(g, p[j], waveOf[p[j]]);
      DepthUnique(g, p[j], w, waveOf[p[j]]);
      assert p[j] in waves[w];
    }
  }

  /** The second half of `computeWaves`: from a topological order to its layers. */
  method LayerOrder(g: DependencyGraph, order: seq<string>) returns (result: seq<seq<string>>)
    requires Topological(g, order) && forall id :: id in order <==> id in g
    ensures LongestPathLayers(g, result)
  {
    NoRepeatMeansDistinct(order);
    var waveOf := AssignWaves(g, order);
    result := LayerByWave(g, order, waveOf);
  }

  function WavesInOrder(order: seq<string>, waveOf: map<string, nat>): (values: seq<nat>)
    requires forall id | id in order :: id in waveOf
    ensures |values| == |order|
    ensures forall i | 0 <= i < |order| :: values[i] == waveOf[order[i]]
  {
    seq(|order|, i requires 0 <= i < |order| => waveOf[order[i]])
  }

  method LayerByWave(g: DependencyGraph, order: seq<string>, waveOf: map<string, nat>)
    returns (result: seq<seq<string>>)
    requires Distinct(order) && DepthsKnown(g, waveOf)
    requires waveOf.Keys == g.Keys && forall id :: id in order <==> id in g
    ensures LongestPathLayers(g, result)
  {
    var values := WavesInOrder(order, waveOf);
    var maxWave := MaxOf(values);
    forall id | id in order ensures waveOf[id] <= maxWave {
      var i :| 0 <= i < |order| && order[i] == id;
      assert values[i] in values;
    }
    result := ArrangeWaves(order, waveOf, maxWave);
    LayersAreByDepth(g, waveOf, maxWave, result);
    NoLayerIsEmpty(g, order, waveOf, result);
  }

  lemma NoLayerIsEmpty(g: DependencyGraph, order: seq<string>, waveOf: map<string, nat>, waves: seq<seq<string>>)
    requires waveOf.Keys == g.Keys && DepthsKnown(g, waveOf)
    requires forall id :: id in order <==> id in g
    requires |waves| == MaxOf(WavesInOrder(order, waveOf)) + 1
    requires forall w, id | 0 <= w < |waves| :: id in waves[w] <==> id in waveOf && waveOf[id] == w
    ensures NoneEmpty(g, waves)
  {
    var values := WavesInOrder(order, waveOf);
    if order == [] {
      assert g == map[] by { assert forall id :: id !in g; }
      forall x ensures x !in waves[0] {
        assert x !in g && x !in waveOf.Keys;
      }
      NoMembersMeansEmpty(waves[0]);
    } else {
      assert order[0] in g;
      var i :| 0 <= i < |values| && values[i] == MaxOf(values);
      LayersAreFilled(g, waveOf, MaxOf(values), order[i], waves);
    }
  }

  lemma SortedLayersAreTidy(waves: seq<seq<string>>)
    requires forall w | 0 <= w < |waves| :: Distinct(waves[w])
    ensures Tidy(SortEach(waves))
  {
    forall w | 0 <= w < |waves| ensures Distinct(SortEach(waves)[w]) {
      SameMultiset(waves[w], Sort(waves[w]));
    }
  }

  method ArrangeWaves(order: seq<string>, waveOf: map<string, nat>, maxWave: nat) returns (result: seq<seq<string>>)
    requires Distinct(order)
    requires forall id | id in order :: id in waveOf && waveOf[id] <= maxWave
    ensures |result| == maxWave + 1 && Tidy(result)
    ensures forall w, id | 0 <= w < |result| :: id in result[w] <==> id in order && waveOf[id] == w
  {
    var waves := FillWaves(order, waveOf, maxWave);
    SortedLayersAreTidy(waves);
    result := SortEach(waves);
  }

  lemma LayersAreByDepth(g: DependencyGraph, waveOf: map<string, nat>, maxWave: nat, result: seq<seq<string>>)
    requires waveOf.Keys == g.Keys && DepthsKnown(g, waveOf) && |result| == maxWave + 1
    requires forall id | id in waveOf :: waveOf[id] <= maxWave
    requires forall w, id | 0 <= w < |result| :: id in result[w] <==> id in waveOf && waveOf[id] == w
    ensures ByDepth(g, result)
  {
    forall w, id | 0 <= w < |result| ensures id in result[w] <==> id in g && HasDepth(g, id, w) {
      assert id in g ==> HasDepth(g, id, waveOf[id]);
      if id in g && HasDepth(g, id, w) { DepthUnique(g, id, w, waveOf[id]); }
    }
    forall id | id in g ensures HasWave(g, result, id) {
      assert HasDepth(g, id, waveOf[id]);
    }
  }

  method ComputeWaves(verifiers: seq<Verifier>) returns (r: Result<seq<seq<string>>, MeshError>)
    ensures r.Success? <==> UniqueIds(verifiers) && DependenciesPresent(verifiers) && Acyclic(GraphOf(verifiers))
    ensures r.Success? ==> LongestPathLayers(GraphOf(verifiers), r.value)
    ensures r.Failure? ==> IsDue(verifiers, r.error)
  {
    var sorted := TopologicalSort(verifiers);
    if sorted.Failure? { return Failure(sorted.error); }
    SameMultiset(sorted.value, Ids(verifiers));
    var waves := LayerOrder(GraphOf(verifiers), sorted.value);
    return Success(waves);
  }

  // ---- What the layers mean ----

  /** Every id is in exactly one wave. */
  lemma WavesPartition(g: DependencyGraph, waves: seq<seq<string>>, id: string)
    requires ByDepth(g, waves)
    ensures id in g <==> exists w :: 0 <= w < |waves| && id in waves[w]
    ensures forall v, w | 0 <= v < |waves| && 0 <= w < |waves| && id in waves[v] && id in waves[w] :: v == w
  {
    forall v, w | 0 <= v < |waves| && 0 <= w < |waves| && id in waves[v] && id in waves[w] ensures v == w {
      DepthUnique(g, id, v, w);
    }
    if id in g {
      assert HasWave(g, waves, id);
      var w: nat :| w < |waves| && HasDepth(g, id, w);
      assert id in waves[w];
    }
  }

  /** Within a wave, ids stand in the order in which their first difference puts them. */
  lemma WavesInTextOrder(g: DependencyGraph, waves: seq<seq<string>>, w: nat, i: nat, j: nat)
    requires LongestPathLayers(g, waves) && w < |waves| && i < j < |waves[w]|
    ensures waves[w][i] != waves[w][j] && ComesFirst(waves[w][i], waves[w][j])
  {
    DistinctPrefix(waves[w], j);
    LexLeqExactly(waves[w][i], waves[w][j]);
  }

  lemma DependenciesInEarlierWaves(g: DependencyGraph, waves: seq<seq<string>>, w: nat, id: string, d: string)
    requires Closed(g) && ByDepth(g, waves)
    requires w < |waves| && id in waves[w] && d in g[id]
    ensures exists v :: 0 <= v < w && d in waves[v]
  {
    assert HasWave(g, waves, d);
    var v: nat :| v < |waves| && HasDepth(g, d, v);
    DependencyIsShallower(g, id, w, d, v);
    assert d in waves[v];
  }

  /** Any assignment of waves that runs dependencies strictly first. */
  ghost predicate RespectsDependencies(g: DependencyGraph, layer: map<string, nat>) {
    layer.Keys == g.Keys && Closed(g) && forall id, d | id in g && d in g[id] :: layer[d] < layer[id]
  }

  lemma {:induction false} LayerAboveChain(g: DependencyGraph, layer: map<string, nat>, p: seq<string>)
    requires RespectsDependencies(g, layer) && IsPath(g, p)
    ensures layer[p[0]] >= |p| - 1
  {
    if |p| > 1 {
      var q := p[1..];
      LayerAboveChain(g, layer, q);
      assert p[1] in g[p[0]];
    }
  }

  /** No layering that respects dependencies places a verifier earlier. */
  lemma LayersAreLeast(g: DependencyGraph, waves: seq<seq<string>>, layer: map<string, nat>, w: nat, id: string)
    requires ByDepth(g, waves) && RespectsDependencies(g, layer)
    requires w < |waves| && id in waves[w]
    ensures w <= layer[id]
  {
    assert HasDepth(g, id, w);
    var p :| ChainFrom(g, id, p) && |p| == w + 1;
    LayerAboveChain(g, layer, p);
  }

  /** And none uses fewer layers: some verifier is in layer `|waves| - 1` or later. */
  lemma LayersAreFewest(g: DependencyGraph, waves: seq<seq<string>>, layer: map<string, nat>)
    requires LongestPathLayers(g, waves) && RespectsDependencies(g, layer) && |g| > 0
    ensures exists id :: id in g && layer[id] >= |waves| - 1
  {
    var w := |waves| - 1;
    assert waves[w][0] in waves[w];
    LayersAreLeast(g, waves, layer, w, waves[w][0]);
  }

  lemma {:induction false} PathTransfers(g: DependencyGraph, h: DependencyGraph, p: seq<string>)
    requires SameUpToOrder(g, h) && IsPath(g, p)
    ensures IsPath(h, p)
  {
    forall i, j | 0 <= i < j < |p| && j == i + 1 ensures p[j] in h[p[i]] {
      assert p[j] in multiset(g[p[i]]);
    }
  }

  lemma DepthTransfers(g: DependencyGraph, h: DependencyGraph, id: string, n: nat)
    requires SameUpToOrder(g, h) && HasDepth(g, id, n)
    ensures HasDepth(h, id, n)
  {
    var p :| ChainFrom(g, id, p) && |p| == n + 1;
    PathTransfers(g, h, p);
    assert ChainFrom(h, id, p);
    forall q | ChainFrom(h, id, q) ensures |q| <= n + 1 {
      PathTransfers(h, g, q);
      assert ChainFrom(g, id, q);
    }
  }

  lemma WaveCountBound(g: DependencyGraph, h: DependencyGraph, a: seq<seq<string>>, b: seq<seq<string>>)
    requires SameUpToOrder(g, h) && ByDepth(g, a) && ByDepth(h, b) && NoneEmpty(g, a) && |g| != 0
    ensures |a| <= |b|
  {
    var w := |a| - 1;
    var id := a[w][0];
    assert id in a[w];
    DepthTransfers(g, h, id, w);
    assert HasWave(h, b, id);
    var v: nat :| v < |b| && HasDepth(h, id, v);
    DepthUnique(h, id, v, w);
  }

  /** The waves depend on the graph only: neither registration order nor the
      order in which dependencies are written can be seen in them. */
  lemma WavesIgnoreOrder(g: DependencyGraph, h: DependencyGraph, a: seq<seq<string>>, b: seq<seq<string>>)
    requires SameUpToOrder(g, h) && LongestPathLayers(g, a) && LongestPathLayers(h, b)
    ensures a == b
  {
    assert |g| == |g.Keys| == |h.Keys| == |h|;
    if |g| != 0 {
      WaveCountBound(g, h, a, b);
      WaveCountBound(h, g, b, a);
      forall w | 0 <= w < |a| ensures a[w] == b[w] {
        forall x ensures x in a[w] <==> x in b[w] {
          if x in a[w] { DepthTransfers(g, h, x, w); }
          if x in b[w] { DepthTransfers(h, g, x, w); }
        }
        SortedDistinctUnique(a[w], b[w]);
      }
    }
  }
}

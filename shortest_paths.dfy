/**
 * Shortest paths over a weighted adjacency map, the specification that the
 * NDS subject program's `dijkstra` is proved against. Distances follow
 * Python's floats as `dijkstra` uses them: a number, or `float('inf')`.
 */
module ShortestPaths {

  /** A tentative distance: `float('inf')` or a finite number. */
  datatype Dist = Inf | Fin(n: int)

  /** `a <= b` on distances, infinity being larger than every number. */
  predicate Le(a: Dist, b: Dist) {
    b.Inf? || (a.Fin? && a.n <= b.n)
  }

  /** `d + w`: infinity absorbs any finite weight. */
  function Add(d: Dist, w: int): (r: Dist)
    ensures r.Inf? <==> d.Inf?
    ensures r.Fin? ==> r.n == d.n + w
  {
    if d.Inf? then Inf else Fin(d.n + w)
  }

  /** Python's `a > b`; `inf > inf` is false. */
  function Greater(a: Dist, b: Dist): (r: bool)
    ensures r <==> !Le(a, b)
  {
    match (a, b)
    case (Inf, Fin(_)) => true
    case (Fin(x), Fin(y)) => x > y
    case _ => false
  }

  /**
   * `if d > candidate: d = candidate`: the smaller of the two, keeping `d`
   * on a tie.
   */
  function Relax(d: Dist, candidate: Dist): (r: Dist)
    ensures Le(r, d) && Le(r, candidate)
    ensures r == d || r == candidate
    ensures r != d ==> Greater(d, candidate)
  {
    if Greater(d, candidate) then candidate else d
  }

  /** Vertex to (neighbour to weight); the vertices of the graph are the keys. */
  type Adj<V> = map<V, map<V, int>>

  /** An edge between two vertices of the graph. */
  predicate Edge<V>(adj: Adj<V>, u: V, w: V) {
    u in adj && w in adj && w in adj[u]
  }

  predicate NonNegative<V>(adj: Adj<V>) {
    forall u, w :: u in adj && w in adj[u] ==> adj[u][w] >= 0
  }

  /**
   * A walk from `src` along edges of the graph (the one-vertex walk `[src]`
   * included). Every vertex after the first is a vertex of the graph, which
   * lets `p` be declared `older`: predicates may then quantify over walks.
   */
  predicate IsPath<V>(adj: Adj<V>, src: V, older p: seq<V>) {
    && |p| >= 1 && p[0] == src
    && (forall i :: 0 < i < |p| ==> p[i] in adj)
    && forall i :: 0 <= i < |p| - 1 ==> Edge(adj, p[i], p[i + 1])
  }

  /** The summed edge weights of a walk. */
  function Weight<V>(adj: Adj<V>, p: seq<V>): int
    decreases |p|
  {
    if |p| < 2 then 0
    else
      var u, w := p[|p| - 2], p[|p| - 1];
      Weight(adj, p[..|p| - 1]) + (if Edge(adj, u, w) then adj[u][w] else 0)
  }

  lemma PrefixIsPath<V>(adj: Adj<V>, src: V, p: seq<V>, k: nat)
    requires IsPath(adj, src, p) && 1 <= k <= |p|
    ensures IsPath(adj, src, p[..k])
  {
    var q := p[..k];
    forall i | 0 <= i < k - 1 ensures Edge(adj, q[i], q[i + 1]) {
      assert q[i] == p[i] && q[i + 1] == p[i + 1];
    }
  }

  /** Extending a walk by one edge adds that edge's weight. */
  lemma ExtendPath<V>(adj: Adj<V>, src: V, p: seq<V>, w: V)
    requires IsPath(adj, src, p) && Edge(adj, p[|p| - 1], w)
    ensures IsPath(adj, src, p + [w])
    ensures Weight(adj, p + [w]) == Weight(adj, p) + adj[p[|p| - 1]][w]
  {
    var q := p + [w];
    assert q[..|q| - 1] == p;
    forall i | 0 <= i < |q| - 1 ensures Edge(adj, q[i], q[i + 1]) {
      if i < |p| - 1 {
        assert q[i] == p[i] && q[i + 1] == p[i + 1];
      }
    }
  }

  /** With non-negative weights a prefix of a walk weighs no more than the walk. */
  lemma {:induction false} PrefixWeight<V>(adj: Adj<V>, p: seq<V>, k: nat)
    requires NonNegative(adj) && 1 <= k <= |p|
    ensures Weight(adj, p[..k]) <= Weight(adj, p)
    decreases |p| - k
  {
    if k < |p| {
      var q := p[..|p| - 1];
      PrefixWeight(adj, q, k);
      assert q[..k] == p[..k];
    } else {
      assert p[..k] == p;
    }
  }

  lemma NonNegativeWeight<V>(adj: Adj<V>, p: seq<V>)
    requires NonNegative(adj) && |p| >= 1
    ensures Weight(adj, p) >= 0
  {
    PrefixWeight(adj, p, 1);
  }

  /** No walk from `src` to `v` weighs less than `d`. */
  ghost predicate LowerBound<V>(adj: Adj<V>, src: V, v: V, d: Dist) {
    forall p :: IsPath(adj, src, p) && p[|p| - 1] == v ==> Le(d, Fin(Weight(adj, p)))
  }

  /** Some walk from `src` to `v` weighs exactly `n`. */
  ghost predicate Reachable<V>(adj: Adj<V>, src: V, v: V, n: int) {
    exists p :: IsPath(adj, src, p) && p[|p| - 1] == v && Weight(adj, p) == n
  }

  /** `d` is the shortest distance from `src` to `v`: infinity when no walk reaches `v`. */
  ghost predicate IsShortest<V>(adj: Adj<V>, src: V, v: V, d: Dist) {
    LowerBound(adj, src, v, d) && (d.Fin? ==> Reachable(adj, src, v, d.n))
  }

  /** The distances of the vertices in `s` are final: no walk beats them. */
  ghost predicate Settled<V>(adj: Adj<V>, src: V, s: set<V>, dist: map<V, Dist>)
    requires s <= dist.Keys
  {
    forall v :: v in s ==> LowerBound(adj, src, v, dist[v])
  }

  /** A shortest distance is infinite exactly when no walk reaches the vertex. */
  lemma ShortestInf<V>(adj: Adj<V>, src: V, v: V, d: Dist)
    requires IsShortest(adj, src, v, d)
    ensures d == Inf <==> !exists p :: IsPath(adj, src, p) && p[|p| - 1] == v
  {
    forall p | IsPath(adj, src, p) && p[|p| - 1] == v ensures d.Fin? {
      assert Le(d, Fin(Weight(adj, p)));
    }
    if d.Fin? {
      var p :| IsPath(adj, src, p) && p[|p| - 1] == v && Weight(adj, p) == d.n;
    }
  }

  /** The shortest distance is unique. */
  lemma ShortestUnique<V>(adj: Adj<V>, src: V, v: V, d1: Dist, d2: Dist)
    requires IsShortest(adj, src, v, d1) && IsShortest(adj, src, v, d2)
    ensures d1 == d2
  {
    if d1.Fin? {
      var p :| IsPath(adj, src, p) && p[|p| - 1] == v && Weight(adj, p) == d1.n;
      assert Le(d2, Fin(Weight(adj, p)));
    }
    if d2.Fin? {
      var p :| IsPath(adj, src, p) && p[|p| - 1] == v && Weight(adj, p) == d2.n;
      assert Le(d1, Fin(Weight(adj, p)));
    }
  }

  /** Every finite tentative distance is the weight of a recorded walk. */
  ghost predicate Witnessed<V>(adj: Adj<V>, src: V, dist: map<V, Dist>, paths: map<V, seq<V>>) {
    && (forall v :: v in dist && dist[v].Fin? ==> v in paths)
    && forall v {:trigger paths[v]} :: v in paths && v in dist && dist[v].Fin? ==>
      IsPath(adj, src, paths[v]) && paths[v][|paths[v]| - 1] == v
      && Weight(adj, paths[v]) == dist[v].n
  }

  /** Recording a walk for a new finite distance keeps every distance witnessed. */
  lemma WitnessedUpdate<V>(adj: Adj<V>, src: V, dist: map<V, Dist>, paths: map<V, seq<V>>, w: V, p: seq<V>)
    requires Witnessed(adj, src, dist, paths)
    requires IsPath(adj, src, p) && p[|p| - 1] == w
    ensures Witnessed(adj, src, dist[w := Fin(Weight(adj, p))], paths[w := p])
  {
  }

  /** Every edge from a visited vertex into an unvisited one has been relaxed. */
  ghost predicate Relaxed<V>(adj: Adj<V>, visited: set<V>, unvisited: set<V>, dist: map<V, Dist>)
    requires adj.Keys <= dist.Keys
  {
    forall u, w :: u in visited && w in unvisited && Edge(adj, u, w) ==>
      Le(dist[w], Add(dist[u], adj[u][w]))
  }

  /** Visited vertices are no farther than unvisited ones. */
  ghost predicate Ordered<V>(visited: set<V>, unvisited: set<V>, dist: map<V, Dist>)
    requires visited + unvisited <= dist.Keys
  {
    forall u, w :: u in visited && w in unvisited ==> Le(dist[u], dist[w])
  }

  /** A non-empty set of vertices has one of least tentative distance. */
  lemma MinExists<V>(s: set<V>, dist: map<V, Dist>)
    requires s != {} && s <= dist.Keys
    ensures exists m :: m in s && forall v :: v in s ==> Le(dist[m], dist[v])
    decreases |s|
  {
    var x :| x in s;
    if s == {x} {
      assert forall v :: v in s ==> v == x;
    } else {
      MinExists(s - {x}, dist);
      var m :| m in s - {x} && forall v :: v in s - {x} ==> Le(dist[m], dist[v]);
      var least := if Le(dist[m], dist[x]) then m else x;
      forall v | v in s ensures Le(dist[least], dist[v]) {
        if v != x {
          assert Le(dist[m], dist[v]);
        }
      }
    }
  }

  /** The index of the first vertex of `p` in `s`. */
  lemma FirstIn<V>(p: seq<V>, s: set<V>) returns (k: nat)
    requires |p| >= 1 && p[|p| - 1] in s
    ensures k < |p| && p[k] in s && forall j :: 0 <= j < k ==> p[j] !in s
  {
    k := 0;
    while p[k] !in s
      invariant k < |p| && forall j :: 0 <= j < k ==> p[j] !in s
      decreases |p| - k
    {
      k := k + 1;
    }
  }

  /**
   * The heart of Dijkstra's algorithm: with non-negative weights, an
   * unvisited vertex of least tentative distance already holds its shortest
   * distance, given that the visited ones do and their edges are relaxed.
   */
  lemma MinIsShortest<V>(adj: Adj<V>, src: V, unvisited: set<V>, dist: map<V, Dist>, u: V)
    requires NonNegative(adj)
    requires unvisited <= adj.Keys && adj.Keys + {src} <= dist.Keys
    requires u in unvisited && forall v :: v in unvisited ==> Le(dist[u], dist[v])
    requires dist[src] == Fin(0)
    requires src in unvisited ==> forall v :: v in dist && v != src ==> dist[v] == Inf
    requires Settled(adj, src, adj.Keys - unvisited, dist)
    requires Relaxed(adj, adj.Keys - unvisited, unvisited, dist)
    ensures LowerBound(adj, src, u, dist[u])
  {
    forall p | IsPath(adj, src, p) && p[|p| - 1] == u
      ensures Le(dist[u], Fin(Weight(adj, p)))
    {
      NonNegativeWeight(adj, p);
      if src in unvisited {
        assert Le(dist[u], dist[src]);
        assert u == src;
      } else {
        var k := FirstIn(p, unvisited);
        assert k >= 1;
        var x, y := p[k - 1], p[k];
        assert Edge(adj, x, y);
        PrefixIsPath(adj, src, p, k);
        var q := p[..k];
        assert q[|q| - 1] == x;
        assert LowerBound(adj, src, x, dist[x]);
        assert Le(dist[x], Fin(Weight(adj, q)));
        assert Le(dist[y], Add(dist[x], adj[x][y]));
        assert p[..k + 1][..k] == q;
        assert Weight(adj, p[..k + 1]) == Weight(adj, q) + adj[x][y];
        PrefixWeight(adj, p, k + 1);
        assert Le(dist[u], dist[y]);
      }
    }
  }

  /** A recorded walk witnesses every finite tentative distance. */
  lemma WitnessedReachable<V>(adj: Adj<V>, src: V, dist: map<V, Dist>, paths: map<V, seq<V>>)
    requires Witnessed(adj, src, dist, paths)
    ensures forall v :: v in dist && dist[v].Fin? ==> Reachable(adj, src, v, dist[v].n)
  {
    forall v | v in dist && dist[v].Fin?
      ensures Reachable(adj, src, v, dist[v].n)
    {
      assert IsPath(adj, src, paths[v]);
    }
  }

  /**
   * With non-negative weights the source keeps distance 0 as its lower
   * bound, whether or not it is a vertex of the graph.
   */
  lemma SourceSettled<V>(adj: Adj<V>, src: V)
    requires NonNegative(adj)
    ensures LowerBound(adj, src, src, Fin(0))
  {
    forall p | IsPath(adj, src, p) && p[|p| - 1] == src
      ensures Le(Fin(0), Fin(Weight(adj, p)))
    {
      NonNegativeWeight(adj, p);
    }
  }
}

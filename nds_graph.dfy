/**
 * The NDS subject program: a directed weighted graph of `Vertex` objects
 * held in a key-to-vertex dictionary, and Dijkstra's shortest-path loop
 * over it.
 */
module NdsGraph {
  import opened Wrappers
  import opened ShortestPaths

  /** Python's `KeyError(key)`. */
  datatype KeyError<X> = KeyError(key: X)

  class Vertex<K(==)> {
    const key: K
    /** Neighbour to edge weight (`points_to`). */
    var pointsTo: map<Vertex<K>, int>

    constructor (key: K)
      ensures this.key == key && pointsTo == map[]
    {
      this.key := key;
      pointsTo := map[];
    }

    function GetKey(): (k: K)
      ensures k == key
    {
      key
    }

    /** `add_neighbour`: sets or overwrites the weight of the edge to `dest`. */
    method AddNeighbour(dest: Vertex<K>, weight: int)
      modifies this
      ensures pointsTo == old(pointsTo)[dest := weight]
      ensures DoesItPointTo(dest) && GetWeight(dest) == Success(weight)
      ensures forall v :: v != dest ==> (DoesItPointTo(v) <==> v in old(pointsTo))
    {
      pointsTo := pointsTo[dest := weight];
    }

    function GetNeighbours(): (r: set<Vertex<K>>)
      reads this
      ensures forall v :: v in r ==> DoesItPointTo(v)
      ensures forall v :: v in pointsTo ==> v in r
    {
      pointsTo.Keys
    }

    /** `get_weight`: the stored weight, or `KeyError` when there is no such edge. */
    function GetWeight(dest: Vertex<K>): (r: Result<int, KeyError<Vertex<K>>>)
      reads this
      ensures r.Success? <==> DoesItPointTo(dest)
      ensures r.Failure? ==> r.error == KeyError(dest)
    {
      if dest in pointsTo then Success(pointsTo[dest]) else Failure(KeyError(dest))
    }

    /** `does_it_point_to`: whether an edge to `dest` has been added. */
    predicate DoesItPointTo(dest: Vertex<K>): (b: bool)
      reads this
      ensures b <==> dest in pointsTo.Keys
    {
      dest in pointsTo
    }
  }

  class Graph<K(==)> {
    /** Key to vertex (`vertices`). */
    var vertices: map<K, Vertex<K>>

    /** Distinct keys hold distinct vertices, each carrying its own key. */
    ghost predicate Valid()
      reads this, vertices.Values
    {
      && (forall k :: k in vertices ==> vertices[k].key == k)
      && (forall a, b :: a in vertices && b in vertices && a != b ==> vertices[a] != vertices[b])
    }

    constructor ()
      ensures vertices == map[] && Valid()
    {
      vertices := map[];
    }

    /** `add_vertex`: a fresh vertex with no edges, replacing any previous one under `key`. */
    method AddVertex(key: K)
      modifies this
      ensures key in vertices && fresh(vertices[key])
      ensures vertices[key].key == key && vertices[key].pointsTo == map[]
      ensures vertices == old(vertices)[key := vertices[key]]
      ensures old(Valid()) ==> Valid()
    {
      var vertex := new Vertex(key);
      vertices := vertices[key := vertex];
    }

    /** `get_vertex`: the vertex under `key`, or `KeyError`. */
    function GetVertex(key: K): (r: Result<Vertex<K>, KeyError<K>>)
      reads this
      ensures r.Success? <==> Contains(key)
      ensures r.Success? ==> r.value == vertices[key]
      ensures r.Failure? ==> r.error == KeyError(key)
    {
      if key in vertices then Success(vertices[key]) else Failure(KeyError(key))
    }

    /** `key in graph`. */
    predicate Contains(key: K): (b: bool)
      reads this
      ensures b <==> key in vertices.Keys
    {
      key in vertices
    }

    /**
     * In a well-formed graph, `key in graph` holds exactly when iterating the
     * graph yields a vertex whose `get_key` is `key`, and `get_vertex(key)`
     * returns that vertex.
     */
    lemma ContainsByKey(key: K)
      requires Valid()
      ensures Contains(key) <==> exists v :: v in Vertices() && v.GetKey() == key
      ensures Contains(key) ==> GetVertex(key).value.GetKey() == key
    {
      if key in vertices {
        assert vertices[key] in Vertices() && vertices[key].GetKey() == key;
      }
      if v :| v in Vertices() && v.GetKey() == key {
        var k :| k in vertices && vertices[k] == v;
        assert vertices[k].key == k;
      }
    }

    /**
     * `does_edge_exist`: whether the vertex under `src` points to the vertex
     * under `dest`; `KeyError` for the first missing key, `src` looked up first.
     */
    function DoesEdgeExist(src: K, dest: K): (r: Result<bool, KeyError<K>>)
      reads this, vertices.Values
      ensures r.Failure? <==> !Contains(src) || !Contains(dest)
      ensures r.Failure? ==> r.error == KeyError(if !Contains(src) then src else dest)
      ensures r.Success? ==> (r.value <==> vertices[src].DoesItPointTo(vertices[dest]))
    {
      if src !in vertices then Failure(KeyError(src))
      else if dest !in vertices then Failure(KeyError(dest))
      else Success(vertices[src].DoesItPointTo(vertices[dest]))
    }

    /**
     * `add_edge`: sets the weight (1 unless given) of the directed edge from
     * the vertex under `src` to the vertex under `dest`. A missing key raises
     * `KeyError`, `src` looked up first, and nothing changes. Only the source
     * vertex's edges change, so the reverse edge is not created.
     */
    method AddEdge(src: K, dest: K, weight: int := 1) returns (err: Option<KeyError<K>>)
      modifies vertices.Values
      ensures err.Some? <==> !Contains(src) || !Contains(dest)
      ensures err.Some? ==> err.value == KeyError(if !Contains(src) then src else dest)
      ensures err.Some? ==> forall v :: v in vertices.Values ==> v.pointsTo == old(v.pointsTo)
      ensures err.None? ==>
        vertices[src].pointsTo == old(vertices[src].pointsTo)[vertices[dest] := weight]
      ensures err.None? ==> DoesEdgeExist(src, dest) == Success(true)
      ensures forall v :: v in vertices.Values && (src !in vertices || v != vertices[src]) ==>
        v.pointsTo == old(v.pointsTo)
      ensures old(Valid()) ==> Valid()
    {
      if src !in vertices {
        return Some(KeyError(src));
      }
      if dest !in vertices {
        return Some(KeyError(dest));
      }
      vertices[src].AddNeighbour(vertices[dest], weight);
      return None;
    }

    /** `iter(graph)`: its vertices. */
    function Vertices(): (r: set<Vertex<K>>)
      reads this
      ensures forall k :: k in vertices ==> vertices[k] in r
      ensures forall v :: v in r ==> exists k :: k in vertices && vertices[k] == v
    {
      vertices.Values
    }

    /** Each vertex of the graph with its outgoing edges. */
    ghost function Adjacency(): (adj: Adj<Vertex<K>>)
      reads this, vertices.Values
      ensures adj.Keys == vertices.Values
      ensures forall v :: v in adj ==> adj[v] == v.pointsTo
    {
      map v | v in vertices.Values :: v.pointsTo
    }
  }

  /**
   * The effect of relaxing the edges of `closest`: every unvisited vertex it
   * points to takes the distance through `closest` when that is strictly
   * shorter, and every other distance stays as it was.
   */
  ghost predicate Relaxation<V>(closest: V, edges: map<V, int>, unvisited: set<V>,
                                d0: map<V, Dist>, d1: map<V, Dist>)
  {
    && unvisited <= d0.Keys && d1.Keys == d0.Keys
    && (forall v :: v in d1 && v !in unvisited ==> d1[v] == d0[v])
    && (forall w :: w in unvisited && w !in edges ==> d1[w] == d0[w])
    && forall w :: w in unvisited && w in edges ==>
      closest in d0 && d1[w] == Relax(d0[w], Add(d0[closest], edges[w]))
  }

  /**
   * One step of the relaxation loop: an unvisited `neighbour` takes the
   * distance through `closest` when that is strictly shorter (`>`).
   */
  method RelaxOne<V>(ghost adj: Adj<V>, ghost source: V, closest: V, neighbour: V, edges: map<V, int>,
                     unvisited: set<V>, distance0: map<V, Dist>, ghost paths0: map<V, seq<V>>)
    returns (distance: map<V, Dist>, ghost paths: map<V, seq<V>>)
    requires closest in adj && adj[closest] == edges && neighbour in edges
    requires adj.Keys <= distance0.Keys && unvisited <= adj.Keys
    requires Witnessed(adj, source, distance0, paths0)
    ensures neighbour !in unvisited ==> distance == distance0
    ensures neighbour in unvisited ==>
      distance == distance0[neighbour := Relax(distance0[neighbour], Add(distance0[closest], edges[neighbour]))]
    ensures Witnessed(adj, source, distance, paths)
  {
    distance, paths := distance0, paths0;
    if neighbour in unvisited {
      var newDistance := Add(distance[closest], edges[neighbour]);
      if Greater(distance[neighbour], newDistance) {
        var walk := paths[closest] + [neighbour];
        ExtendPath(adj, source, paths[closest], neighbour);
        WitnessedUpdate(adj, source, distance, paths, neighbour, walk);
        distance := distance[neighbour := newDistance];
        paths := paths[neighbour := walk];
      } else {
        assert distance == distance[neighbour := distance[neighbour]];
      }
    }
  }

  /** The distance `v` ends with once every edge of `closest` is relaxed. */
  ghost function RelaxedDistance<V>(closest: V, edges: map<V, int>, unvisited: set<V>,
                                    d0: map<V, Dist>, v: V): Dist
    requires v in d0 && closest in d0
  {
    if v in unvisited && v in edges then Relax(d0[v], Add(d0[closest], edges[v])) else d0[v]
  }

  /** The relaxation loop's progress: the neighbours still `pending` keep their old distance. */
  ghost predicate PartlyRelaxed<V>(closest: V, edges: map<V, int>, unvisited: set<V>, pending: set<V>,
                                   d0: map<V, Dist>, d1: map<V, Dist>)
  {
    && d1.Keys == d0.Keys && closest in d0
    && forall v :: v in d1 ==> d1[v] == (if v in pending then d0[v] else RelaxedDistance(closest, edges, unvisited, d0, v))
  }

  lemma PartlyRelaxedStep<V>(closest: V, edges: map<V, int>, unvisited: set<V>, pending: set<V>,
                             d0: map<V, Dist>, d1: map<V, Dist>, n: V, d2: map<V, Dist>)
    requires PartlyRelaxed(closest, edges, unvisited, pending, d0, d1)
    requires n in pending && n in edges && closest !in unvisited && unvisited <= d0.Keys
    requires n !in unvisited ==> d2 == d1
    requires n in unvisited ==> d2 == d1[n := Relax(d1[n], Add(d1[closest], edges[n]))]
    ensures PartlyRelaxed(closest, edges, unvisited, pending - {n}, d0, d2)
  {
    assert d1[closest] == d0[closest];
  }

  lemma PartlyRelaxedDone<V>(closest: V, edges: map<V, int>, unvisited: set<V>, d0: map<V, Dist>, d1: map<V, Dist>)
    requires PartlyRelaxed(closest, edges, unvisited, {}, d0, d1) && unvisited <= d0.Keys
    ensures Relaxation(closest, edges, unvisited, d0, d1)
  {
  }

  /**
   * The relaxation loop of `dijkstra` for the vertex `closest` just visited:
   * every unvisited neighbour takes the distance through `closest` when that
   * is strictly shorter (`>`), and nothing else changes.
   */
  method RelaxNeighbours<V>(ghost adj: Adj<V>, ghost source: V, closest: V, edges: map<V, int>,
                            unvisited: set<V>, distance0: map<V, Dist>, ghost paths0: map<V, seq<V>>)
    returns (distance: map<V, Dist>, ghost paths: map<V, seq<V>>)
    requires closest in adj && adj[closest] == edges && unvisited <= adj.Keys && closest !in unvisited
    requires adj.Keys <= distance0.Keys
    requires Witnessed(adj, source, distance0, paths0)
    ensures Relaxation(closest, edges, unvisited, distance0, distance)
    ensures Witnessed(adj, source, distance, paths)
  {
    distance, paths := distance0, paths0;
    var neighbours := edges.Keys;
    while neighbours != {}
      invariant neighbours <= edges.Keys
      invariant PartlyRelaxed(closest, edges, unvisited, neighbours, distance0, distance)
      invariant Witnessed(adj, source, distance, paths)
      decreases |neighbours|
    {
      var neighbour :| neighbour in neighbours;
      ghost var before := distance;
      distance, paths := RelaxOne(adj, source, closest, neighbour, edges, unvisited, distance, paths);
      PartlyRelaxedStep(closest, edges, unvisited, neighbours, distance0, before, neighbour, distance);
      neighbours := neighbours - {neighbour};
    }
    PartlyRelaxedDone(closest, edges, unvisited, distance0, distance);
  }

  /**
   * `dijkstra(g, source)`: distances from `source` to every vertex of `g`,
   * `source` itself included even when it is not a vertex of `g`. Every
   * finite distance is the weight of a walk along the graph's edges; the
   * source stays at 0 whatever the weights; and with non-negative weights each
   * distance is the shortest, infinity exactly when no walk exists.
   */
  method Dijkstra<K(==)>(g: Graph<K>, source: Vertex<K>) returns (distance: map<Vertex<K>, Dist>)
    ensures distance.Keys == g.vertices.Values + {source}
    ensures distance[source] == Fin(0)
    ensures forall v :: v in distance && distance[v].Fin? ==> Reachable(g.Adjacency(), source, v, distance[v].n)
    ensures NonNegative(g.Adjacency()) ==>
      forall v :: v in distance ==> IsShortest(g.Adjacency(), source, v, distance[v])
  {
    ghost var adj := g.Adjacency();
    var unvisited := g.vertices.Values;
    distance := map v | v in unvisited :: Inf;
    distance := distance[source := Fin(0)];
    ghost var paths: map<Vertex<K>, seq<Vertex<K>>> := map[source := [source]];
    InitialInv(adj, source, distance);

    while unvisited != {}
      invariant DijkstraInv(adj, source, unvisited, distance, paths)
      decreases |unvisited|
    {
      MinExists(unvisited, distance);
      var closest :| closest in unvisited && forall v :: v in unvisited ==> Le(distance[closest], distance[v]);
      unvisited, distance, paths := Visit(adj, source, closest, closest.pointsTo, unvisited, distance, paths);
    }
    AllVisited(adj, source, distance, paths);
    AdjacencyUnchanged(g);
  }

  /**
   * One round of `dijkstra`'s loop once `closest`, an unvisited vertex at
   * the least tentative distance, is chosen: it is marked visited and its
   * edges are relaxed.
   */
  method Visit<V>(ghost adj: Adj<V>, ghost source: V, closest: V, edges: map<V, int>,
                  unvisited0: set<V>, distance0: map<V, Dist>, ghost paths0: map<V, seq<V>>)
    returns (unvisited: set<V>, distance: map<V, Dist>, ghost paths: map<V, seq<V>>)
    requires DijkstraInv(adj, source, unvisited0, distance0, paths0)
    requires closest in unvisited0 && adj[closest] == edges
    requires forall v :: v in unvisited0 ==> Le(distance0[closest], distance0[v])
    ensures unvisited == unvisited0 - {closest}
    ensures Relaxation(closest, edges, unvisited, distance0, distance)
    ensures DijkstraInv(adj, source, unvisited, distance, paths)
  {
    unvisited := unvisited0 - {closest};
    distance, paths := RelaxNeighbours(adj, source, closest, edges, unvisited, distance0, paths0);
    VisitPreserves(adj, source, unvisited0, closest, distance0, paths0, distance, paths);
  }

  /** Nothing `dijkstra` does changes the graph's edges. */
  twostate lemma AdjacencyUnchanged<K>(g: Graph<K>)
    requires unchanged(g) && unchanged(old(g.vertices.Values))
    ensures g.Adjacency() == old(g.Adjacency())
  {
  }

  /** Once every vertex is visited the tentative distances are the promised ones. */
  lemma AllVisited<V>(adj: Adj<V>, source: V, distance: map<V, Dist>, paths: map<V, seq<V>>)
    requires distance.Keys == adj.Keys + {source} && distance[source] == Fin(0)
    requires Witnessed(adj, source, distance, paths)
    requires NonNegative(adj) ==> Settled(adj, source, adj.Keys, distance)
    ensures forall v :: v in distance && distance[v].Fin? ==> Reachable(adj, source, v, distance[v].n)
    ensures NonNegative(adj) ==> forall v :: v in distance ==> IsShortest(adj, source, v, distance[v])
  {
    WitnessedReachable(adj, source, distance, paths);
    if NonNegative(adj) {
      SourceSettled(adj, source);
      forall v | v in distance ensures IsShortest(adj, source, v, distance[v]) {
        assert LowerBound(adj, source, v, distance[v]);
      }
    }
  }

  /**
   * The invariant of `dijkstra`'s loop: the source is at 0 and, while it is
   * unvisited, nothing else is reached yet; every finite distance has a
   * walk; every edge out of a visited vertex is relaxed; and, with
   * non-negative weights, visited vertices are nearer than unvisited ones
   * and hold their shortest distances.
   */
  ghost predicate DijkstraInv<V>(adj: Adj<V>, source: V, unvisited: set<V>,
                                 distance: map<V, Dist>, paths: map<V, seq<V>>)
  {
    && unvisited <= adj.Keys
    && distance.Keys == adj.Keys + {source}
    && distance[source] == Fin(0)
    && (source in unvisited ==>
         unvisited == adj.Keys && forall v :: v in distance && v != source ==> distance[v] == Inf)
    && Witnessed(adj, source, distance, paths)
    && Relaxed(adj, adj.Keys - unvisited, unvisited, distance)
    && (NonNegative(adj) ==> Ordered(adj.Keys - unvisited, unvisited, distance))
    && (NonNegative(adj) ==> Settled(adj, source, adj.Keys - unvisited, distance))
  }

  /** Every vertex unvisited at infinity but the source at 0: the invariant holds on entry. */
  lemma InitialInv<V>(adj: Adj<V>, source: V, distance: map<V, Dist>)
    requires distance == (map v | v in adj.Keys :: Inf)[source := Fin(0)]
    ensures DijkstraInv(adj, source, adj.Keys, distance, map[source := [source]])
  {
    assert IsPath(adj, source, [source]);
  }

  /** Visiting a nearest unvisited vertex and relaxing its edges keeps the loop's invariant. */
  lemma VisitPreserves<V>(adj: Adj<V>, source: V, before: set<V>, closest: V,
                          d0: map<V, Dist>, paths0: map<V, seq<V>>, d1: map<V, Dist>, paths1: map<V, seq<V>>)
    requires DijkstraInv(adj, source, before, d0, paths0)
    requires closest in before && forall v :: v in before ==> Le(d0[closest], d0[v])
    requires Relaxation(closest, adj[closest], before - {closest}, d0, d1)
    requires Witnessed(adj, source, d1, paths1)
    ensures DijkstraInv(adj, source, before - {closest}, d1, paths1)
  {
    var after := before - {closest};
    if source in after {
      assert false;
    }
    assert adj.Keys - after == (adj.Keys - before) + {closest};
    forall u, w | u in adj.Keys - after && w in after && Edge(adj, u, w)
      ensures Le(d1[w], Add(d1[u], adj[u][w]))
    {
      if u != closest {
        assert Le(d0[w], Add(d0[u], adj[u][w]));
      }
    }
    if NonNegative(adj) {
      MinIsShortest(adj, source, before, d0, closest);
      forall u, w | u in adj.Keys - after && w in after
        ensures Le(d1[u], d1[w])
      {
        if u != closest {
          assert Le(d0[u], d0[closest]);
        }
      }
      forall v | v in adj.Keys - after ensures LowerBound(adj, source, v, d1[v]) {
        assert d1[v] == d0[v];
      }
    }
  }
}

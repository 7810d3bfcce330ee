/**
 * `GraphLongestTrail` (ContinuousToolpathMethods.cs): an undirected graph built
 * from the two-point polylines among the input curves, and an exhaustive
 * depth-first search for the longest trail, that is the longest walk that
 * uses no edge twice.
 *
 * The search can be cancelled by a timeout. Here the clock is a `fuel`
 * budget spent once per entry into the depth-first search; running out of
 * fuel is the cancellation, after which the search returns no trail.
 */
module LongestTrail {
  import opened Geometry
  import opened Sequences
  import opened Connectivity

  /** A Rhino curve as far as `TryGetPolyline` sees it. */
  datatype Curve = PolylineCurve(points: seq<Point>) | FreeformCurve

  /** The vertex list, the edge list and the adjacency lists of the search graph. */
  datatype TrailGraph = TrailGraph(vertices: seq<Point>, edges: seq<Line>, adjacency: PointMap)

  /** The outcome of a search: the best trail so far and the fuel left, or cancelled. */
  datatype Search = Done(best: seq<Line>, fuel: nat) | Cancelled

  /** `if (!Vertices.Contains(p)) Vertices.Add(p)`. */
  function AddVertex(vs: seq<Point>, p: Point): (r: seq<Point>)
    ensures Distinct(vs) ==> Distinct(r)
    ensures forall q :: q in r <==> q in vs || q == p
  {
    if p in vs then vs else vs + [p]
  }

  /**
   * `BuildGraph`: every curve that is a polyline of exactly two points becomes
   * an edge, in order; its end points join the vertex list once each, and the
   * edge is listed under both end points (twice when they coincide).
   */
  function BuildGraph(curves: seq<Curve>): (g: TrailGraph)
    ensures Distinct(g.vertices) && WellBuilt(g)
    ensures |g.edges| <= |curves|
    ensures forall e :: e in g.edges <==> PolylineCurve([e.from, e.to]) in curves
  {
    if curves == [] then TrailGraph([], [], map[])
    else
      var prefix := curves[..|curves| - 1];
      var c := curves[|curves| - 1];
      assert curves == prefix + [c];
      var g := BuildGraph(prefix);
      assert forall x: Curve :: x in curves <==> x in prefix || x == c;
      if c.PolylineCurve? && |c.points| == 2 then
        var e := Line(c.points[0], c.points[1]);
        assert c == PolylineCurve([e.from, e.to]);
        GrowGraph(g, e);
        TrailGraph(AddVertex(AddVertex(g.vertices, e.from), e.to), g.edges + [e], AddLine(g.adjacency, e))
      else
        g
  }

  /** One edge added to a graph as `BuildGraph` leaves it. */
  lemma GrowGraph(g: TrailGraph, e: Line)
    requires Distinct(g.vertices) && WellBuilt(g)
    ensures var h := TrailGraph(AddVertex(AddVertex(g.vertices, e.from), e.to), g.edges + [e], AddLine(g.adjacency, e));
            Distinct(h.vertices) && WellBuilt(h) && forall x :: x in h.edges <==> x in g.edges || x == e
  {
    var vs := AddVertex(AddVertex(g.vertices, e.from), e.to);
    EndpointsSnoc(g.edges, e);
    assert (set p | p in vs) == (set p | p in g.vertices) + {e.from, e.to};
    BuildStep(g.edges, e, g.adjacency);
    assert forall x :: x in g.edges + [e] <==> x in g.edges || x == e;
  }

  /** What the search relies on: every listed edge touches its key, and both its end points are keys. */
  predicate Closed(adj: PointMap) {
    forall p, e :: p in adj && e in adj[p] ==> Touches(e, p) && e.from in adj && e.to in adj
  }

  /** A graph as `BuildGraph` leaves it. */
  ghost predicate WellBuilt(g: TrailGraph) {
    && (set p | p in g.vertices) == Endpoints(g.edges)
    && Registers(g.adjacency, g.edges)
  }

  /** The end of `e` that is not `v` (`v` itself for a loop edge). */
  function Other(e: Line, v: Point): Point {
    if e.from == v then e.to else e.from
  }

  /**
   * `DFS`: check for cancellation, then try every unvisited edge at `v` in
   * list order, and finally keep the current trail if it is strictly longer
   * than the best one.
   */
  function DFS(adj: PointMap, v: Point, visited: set<Line>, trail: seq<Line>, best: seq<Line>, fuel: nat): (r: Search)
    requires Closed(adj) && v in adj
    ensures r.Done? ==> r.fuel < fuel
    ensures r.Done? ==> r.best == best || |r.best| > |best|
    ensures r.Done? ==> |r.best| >= |trail|
    decreases fuel, 0, 0
  {
    if fuel == 0 then Cancelled
    else Loop(adj, v, visited, trail, best, fuel - 1, 0)
  }

  /** The `foreach` of `DFS` from the `k`-th edge at `v` on, followed by the final comparison. */
  function Loop(adj: PointMap, v: Point, visited: set<Line>, trail: seq<Line>, best: seq<Line>, fuel: nat, k: nat): (r: Search)
    requires Closed(adj) && v in adj && k <= |adj[v]|
    ensures r.Done? ==> r.fuel <= fuel
    ensures r.Done? ==> r.best == best || |r.best| > |best|
    ensures r.Done? ==> |r.best| >= |trail|
    decreases fuel, 1, |adj[v]| - k
  {
    if k == |adj[v]| then Done(if |trail| > |best| then trail else best, fuel)
    else
      var e := adj[v][k];
      if e in visited then Loop(adj, v, visited, trail, best, fuel, k + 1)
      else
        match DFS(adj, Other(e, v), visited + {e}, trail + [e], best, fuel)
        case Cancelled => Cancelled
        case Done(b, f) => Loop(adj, v, visited, trail, b, f, k + 1)
  }

  /** `FindLongestTrailInternal` from the `i`-th vertex on: a fresh search from each vertex, sharing the best trail. */
  function Internal(g: TrailGraph, i: nat, best: seq<Line>, fuel: nat): (r: Search)
    requires Closed(g.adjacency) && i <= |g.vertices|
    requires forall j :: 0 <= j < |g.vertices| ==> g.vertices[j] in g.adjacency
    ensures r.Done? ==> r.best == best || |r.best| > |best|
    decreases |g.vertices| - i
  {
    if i == |g.vertices| then Done(best, fuel)
    else
      match DFS(g.adjacency, g.vertices[i], {}, [], best, fuel)
      case Cancelled => Cancelled
      case Done(b, f) => Internal(g, i + 1, b, f)
  }

  /** A graph built from curves is closed and lists every vertex. */
  lemma BuiltIsClosed(g: TrailGraph)
    requires WellBuilt(g)
    ensures Closed(g.adjacency)
    ensures forall j :: 0 <= j < |g.vertices| ==> g.vertices[j] in g.adjacency
  {
    forall p, e | p in g.adjacency && e in g.adjacency[p]
      ensures Touches(e, p) && e.from in g.adjacency && e.to in g.adjacency
    {
      Listing(g.adjacency, g.edges, p, e);
      assert e.from in Endpoints(g.edges) && e.to in Endpoints(g.edges);
    }
    forall j | 0 <= j < |g.vertices|
      ensures g.vertices[j] in g.adjacency
    {
      assert g.vertices[j] in (set p | p in g.vertices);
    }
  }

  /** The whole search from every vertex. */
  function FullSearch(g: TrailGraph, fuel: nat): Search
    requires WellBuilt(g)
  {
    BuiltIsClosed(g);
    Internal(g, 0, [], fuel)
  }

  /** `FindLongestTrail`: the best trail found, or no trail when the search is cancelled. */
  function FindLongestTrail(g: TrailGraph, fuel: nat): (r: seq<Line>)
    requires WellBuilt(g)
    ensures FullSearch(g, fuel).Cancelled? ==> r == []
  {
    match FullSearch(g, fuel)
    case Cancelled => []
    case Done(best, _) => best
  }

  // ---------------------------------------------------------------------
  // Trails
  // ---------------------------------------------------------------------

  /** A walk from `s` along `edges`: each edge touches the vertex reached so far. */
  predicate Walk(edges: seq<Line>, s: Point, t: seq<Line>)
    decreases |t|
  {
    t == [] || (t[0] in edges && Touches(t[0], s) && Walk(edges, Other(t[0], s), t[1..]))
  }

  /** A trail from `s`: a walk that repeats no edge. */
  predicate IsTrail(edges: seq<Line>, s: Point, t: seq<Line>) {
    Walk(edges, s, t) && Distinct(t)
  }

  /** The vertex a walk from `s` reaches. */
  function End(s: Point, t: seq<Line>): Point
    decreases |t|
  {
    if t == [] then s else End(Other(t[0], s), t[1..])
  }

  /** A walk from `s` through the adjacency lists that avoids the edges in `visited` and repeats none. */
  predicate PathFrom(adj: PointMap, s: Point, visited: set<Line>, t: seq<Line>)
    decreases |t|
  {
    t == [] || (s in adj && t[0] in adj[s] && t[0] !in visited && PathFrom(adj, Other(t[0], s), visited + {t[0]}, t[1..]))
  }

  /** `t` is no trail at all, or a path from one of the ends of its first edge. */
  predicate Sound(adj: PointMap, t: seq<Line>) {
    t == [] || PathFrom(adj, t[0].from, {}, t) || PathFrom(adj, t[0].to, {}, t)
  }

  /** A path splits at any point into a path and a path from where it got to. */
  lemma {:induction false} PathAppend(adj: PointMap, s: Point, visited: set<Line>, t: seq<Line>, u: seq<Line>)
    ensures PathFrom(adj, s, visited, t + u) <==>
            PathFrom(adj, s, visited, t) && PathFrom(adj, End(s, t), visited + (set x | x in t), u)
    decreases |t|
  {
    if t == [] {
      assert t + u == u;
      assert visited + (set x | x in t) == visited;
    } else {
      assert (t + u)[0] == t[0] && (t + u)[1..] == t[1..] + u;
      PathAppend(adj, Other(t[0], s), visited + {t[0]}, t[1..], u);
      assert visited + {t[0]} + (set x | x in t[1..]) == visited + (set x | x in t);
    }
  }

  /** One step of the search keeps the trail a path from its start. */
  lemma PathStep(adj: PointMap, s: Point, trail: seq<Line>, e: Line)
    requires PathFrom(adj, s, {}, trail)
    requires End(s, trail) in adj && e in adj[End(s, trail)] && e !in (set x | x in trail)
    ensures PathFrom(adj, s, {}, trail + [e])
    ensures End(s, trail + [e]) == Other(e, End(s, trail))
  {
    var v := End(s, trail);
    assert {} + (set x | x in trail) == set x | x in trail;
    assert PathFrom(adj, Other(e, v), (set x | x in trail) + {e}, []);
    assert PathFrom(adj, v, (set x | x in trail), [e]);
    PathAppend(adj, s, {}, trail, [e]);
    EndAppend(s, trail, e);
  }

  lemma {:induction false} EndAppend(s: Point, t: seq<Line>, e: Line)
    ensures End(s, t + [e]) == Other(e, End(s, t))
    decreases |t|
  {
    if t == [] {
      assert ([] + [e])[1..] == [];
    } else {
      assert (t + [e])[0] == t[0] && (t + [e])[1..] == t[1..] + [e];
      EndAppend(Other(t[0], s), t[1..], e);
    }
  }

  /** The invariant of the search: the current trail is a path from `s` ending at `v`, and `visited` holds its edges. */
  predicate OnTrail(adj: PointMap, s: Point, v: Point, visited: set<Line>, trail: seq<Line>) {
    PathFrom(adj, s, {}, trail) && End(s, trail) == v && visited == (set x | x in trail)
  }

  /** A non-empty path from `s` starts at one of its first edge's ends. */
  lemma PathIsSound(adj: PointMap, s: Point, t: seq<Line>)
    requires Closed(adj) && PathFrom(adj, s, {}, t)
    ensures Sound(adj, t)
  {
    if t != [] {
      assert t[0] in adj[s];
    }
  }

  /** Whatever the search keeps is a trail (or nothing). */
  lemma DFSSound(adj: PointMap, s: Point, v: Point, visited: set<Line>, trail: seq<Line>, best: seq<Line>, fuel: nat)
    requires Closed(adj) && v in adj
    requires OnTrail(adj, s, v, visited, trail) && Sound(adj, best)
    ensures DFS(adj, v, visited, trail, best, fuel).Done? ==> Sound(adj, DFS(adj, v, visited, trail, best, fuel).best)
    decreases fuel, 0, 0
  {
    if fuel > 0 {
      LoopSound(adj, s, v, visited, trail, best, fuel - 1, 0);
    }
  }

  lemma LoopSound(adj: PointMap, s: Point, v: Point, visited: set<Line>, trail: seq<Line>, best: seq<Line>, fuel: nat, k: nat)
    requires Closed(adj) && v in adj && k <= |adj[v]|
    requires OnTrail(adj, s, v, visited, trail) && Sound(adj, best)
    ensures Loop(adj, v, visited, trail, best, fuel, k).Done? ==> Sound(adj, Loop(adj, v, visited, trail, best, fuel, k).best)
    decreases fuel, 1, |adj[v]| - k
  {
    if k == |adj[v]| {
      PathIsSound(adj, s, trail);
    } else {
      var e := adj[v][k];
      if e in visited {
        LoopSound(adj, s, v, visited, trail, best, fuel, k + 1);
      } else {
        PathStep(adj, s, trail, e);
        assert visited + {e} == set x | x in trail + [e];
        DFSSound(adj, s, Other(e, v), visited + {e}, trail + [e], best, fuel);
        match DFS(adj, Other(e, v), visited + {e}, trail + [e], best, fuel)
        case Cancelled =>
        case Done(b, f) => LoopSound(adj, s, v, visited, trail, b, f, k + 1);
      }
    }
  }

  /**
   * A search that finishes has looked at every extension of the current
   * trail: none is longer than the best trail it returns.
   */
  lemma DFSLongest(adj: PointMap, v: Point, visited: set<Line>, trail: seq<Line>, best: seq<Line>, fuel: nat, ext: seq<Line>)
    requires Closed(adj) && v in adj
    requires DFS(adj, v, visited, trail, best, fuel).Done?
    requires PathFrom(adj, v, visited, ext)
    ensures |trail| + |ext| <= |DFS(adj, v, visited, trail, best, fuel).best|
    decreases fuel, 0, 0
  {
    if ext != [] {
      var j :| 0 <= j < |adj[v]| && adj[v][j] == ext[0];
      LoopLongest(adj, v, visited, trail, best, fuel - 1, 0, j, ext[1..]);
    }
  }

  /** From the `k`-th edge on, every path whose first edge is a later unvisited entry `j` has been measured. */
  lemma LoopLongest(adj: PointMap, v: Point, visited: set<Line>, trail: seq<Line>, best: seq<Line>, fuel: nat, k: nat,
                    j: nat, ext: seq<Line>)
    requires Closed(adj) && v in adj && k <= j < |adj[v]|
    requires Loop(adj, v, visited, trail, best, fuel, k).Done?
    requires adj[v][j] !in visited && PathFrom(adj, Other(adj[v][j], v), visited + {adj[v][j]}, ext)
    ensures |trail| + 1 + |ext| <= |Loop(adj, v, visited, trail, best, fuel, k).best|
    decreases fuel, 1, |adj[v]| - k
  {
    var e := adj[v][k];
    if e in visited {
      LoopLongest(adj, v, visited, trail, best, fuel, k + 1, j, ext);
    } else {
      match DFS(adj, Other(e, v), visited + {e}, trail + [e], best, fuel)
      case Done(b, f) =>
        if j == k {
          DFSLongest(adj, Other(e, v), visited + {e}, trail + [e], best, fuel, ext);
        } else {
          LoopLongest(adj, v, visited, trail, b, f, k + 1, j, ext);
        }
    }
  }

  /** The vertex loop keeps a sound best trail. */
  lemma {:induction false} InternalSound(g: TrailGraph, i: nat, best: seq<Line>, fuel: nat)
    requires Closed(g.adjacency) && i <= |g.vertices|
    requires forall j :: 0 <= j < |g.vertices| ==> g.vertices[j] in g.adjacency
    requires Sound(g.adjacency, best)
    ensures Internal(g, i, best, fuel).Done? ==> Sound(g.adjacency, Internal(g, i, best, fuel).best)
    decreases |g.vertices| - i
  {
    if i < |g.vertices| {
      var v := g.vertices[i];
      assert OnTrail(g.adjacency, v, v, {}, []);
      DFSSound(g.adjacency, v, v, {}, [], best, fuel);
      match DFS(g.adjacency, v, {}, [], best, fuel)
      case Cancelled =>
      case Done(b, f) => InternalSound(g, i + 1, b, f);
    }
  }

  /** The vertex loop, when it finishes, beats every path from the vertices it has still to visit. */
  lemma {:induction false} InternalLongest(g: TrailGraph, i: nat, best: seq<Line>, fuel: nat, j: nat, t: seq<Line>)
    requires Closed(g.adjacency) && i <= j < |g.vertices|
    requires forall j :: 0 <= j < |g.vertices| ==> g.vertices[j] in g.adjacency
    requires Internal(g, i, best, fuel).Done?
    requires PathFrom(g.adjacency, g.vertices[j], {}, t)
    ensures |t| <= |Internal(g, i, best, fuel).best|
    decreases |g.vertices| - i
  {
    var v := g.vertices[i];
    match DFS(g.adjacency, v, {}, [], best, fuel)
    case Done(b, f) =>
      if i == j {
        DFSLongest(g.adjacency, v, {}, [], best, fuel, t);
      } else {
        InternalLongest(g, i + 1, b, f, j, t);
      }
  }

  // ---------------------------------------------------------------------
  // From the adjacency lists back to the edge list
  // ---------------------------------------------------------------------

  /** In a registered map, `e` is listed under `p` exactly when it is an edge touching `p`. */
  lemma Listing(adj: PointMap, edges: seq<Line>, p: Point, e: Line)
    requires Registers(adj, edges)
    ensures p in adj && e in adj[p] <==> e in edges && Touches(e, p)
  {
    if e in edges && Touches(e, p) {
      assert p in Endpoints(edges);
      assert multiset(adj[p])[e] == multiset(edges)[e] * Ends(e, p);
    }
    if p in adj && e in adj[p] {
      assert multiset(adj[p])[e] == multiset(edges)[e] * Ends(e, p);
    }
  }

  /** A path through the adjacency lists avoiding `visited` is a trail along the edges that avoids `visited`. */
  lemma {:induction false} PathIsTrail(adj: PointMap, edges: seq<Line>, s: Point, visited: set<Line>, t: seq<Line>)
    requires Registers(adj, edges)
    ensures PathFrom(adj, s, visited, t) <==>
            IsTrail(edges, s, t) && forall i :: 0 <= i < |t| ==> t[i] !in visited
    decreases |t|
  {
    if t != [] {
      Listing(adj, edges, s, t[0]);
      PathIsTrail(adj, edges, Other(t[0], s), visited + {t[0]}, t[1..]);
      assert forall i :: 1 <= i < |t| ==> t[i] == t[1..][i - 1];
      assert Distinct(t) <==> Distinct(t[1..]) && forall i :: 1 <= i < |t| ==> t[i] != t[0];
    }
  }

  /** Whatever `FindLongestTrail` returns is a trail from one of the ends of its first edge. */
  lemma TrailFound(g: TrailGraph, fuel: nat)
    requires WellBuilt(g)
    ensures var r := FindLongestTrail(g, fuel);
            r == [] || IsTrail(g.edges, r[0].from, r) || IsTrail(g.edges, r[0].to, r)
  {
    BuiltIsClosed(g);
    InternalSound(g, 0, [], fuel);
    var r := FindLongestTrail(g, fuel);
    if r != [] {
      PathIsTrail(g.adjacency, g.edges, r[0].from, {}, r);
      PathIsTrail(g.adjacency, g.edges, r[0].to, {}, r);
    }
  }

  /** When the search is not cancelled, no trail from any point is longer than the one returned. */
  lemma TrailLongest(g: TrailGraph, fuel: nat, s: Point, t: seq<Line>)
    requires WellBuilt(g) && FullSearch(g, fuel).Done?
    requires IsTrail(g.edges, s, t)
    ensures |t| <= |FindLongestTrail(g, fuel)|
  {
    BuiltIsClosed(g);
    if t != [] {
      assert s in Endpoints(g.edges);
      assert s in (set p | p in g.vertices);
      var j :| 0 <= j < |g.vertices| && g.vertices[j] == s;
      PathIsTrail(g.adjacency, g.edges, s, {}, t);
      InternalLongest(g, 0, [], fuel, j, t);
    }
  }

  /** A trail uses each distinct edge at most once, so it is no longer than the number of distinct edges. */
  lemma TrailBound(edges: seq<Line>, s: Point, t: seq<Line>)
    requires IsTrail(edges, s, t)
    ensures |t| <= |set e | e in edges|
  {
    WalkWithin(edges, s, t);
    DistinctWithin(t, set e | e in edges);
  }

  lemma {:induction false} WalkWithin(edges: seq<Line>, s: Point, t: seq<Line>)
    requires Walk(edges, s, t)
    ensures forall i :: 0 <= i < |t| ==> t[i] in edges
    decreases |t|
  {
    if t != [] {
      WalkWithin(edges, Other(t[0], s), t[1..]);
      assert forall i :: 1 <= i < |t| ==> t[i] == t[1..][i - 1];
    }
  }
}

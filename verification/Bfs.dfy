/** Breadth first search (italos/lib/dfs_bfs.c). */
module BreadthFirst {
  import opened Graphs
  import opened Counting

  const UNDEFINED: int := -1

  /** There is a path of `d` edges from `s` to `v`. */
  ghost predicate Walk(g: Graph, s: int, v: int, d: int) {
    exists p :: PathFromTo(g, p, s, v) && |p| == d + 1
  }

  /** `d` is the length of a shortest path from `s` to `v`. */
  ghost predicate Distance(g: Graph, s: int, v: int, d: int) {
    Walk(g, s, v, d) && forall e :: Walk(g, s, v, e) ==> d <= e
  }

  lemma WalkOn(g: Graph, s: int, v: int, w: int, d: int)
    requires Walk(g, s, v, d) && Linked(g, v, w)
    ensures Walk(g, s, w, d + 1)
  {
    var p :| PathFromTo(g, p, s, v) && |p| == d + 1;
    var q := p + [w];
    forall i | 0 <= i < |q| - 1 ensures Linked(g, q[i], q[i + 1]) {
    }
    assert PathFromTo(g, q, s, w);
  }

  // ---------- The search, as values ----------

  /** What has been found: the vertices in order, the vertex each was reached from, its place in the order and
      which of its edges that was, and how many edges away from the start each lies. */
  datatype Found = Found(vertices: seq<int>, parents: seq<int>, places: seq<int>, edges: seq<int>, levels: seq<int>)

  ghost predicate Shaped(g: Graph, s: int, f: Found) {
    |f.vertices| == |f.parents| == |f.places| == |f.levels| > 0 && f.vertices[0] == s && f.levels[0] == 0 &&
    forall i | 0 <= i < |f.vertices| :: 0 <= f.vertices[i] < |g|
  }

  ghost predicate Walked(g: Graph, s: int, f: Found)
    requires |f.vertices| == |f.levels|
  {
    forall i | 0 <= i < |f.vertices| :: Walk(g, s, f.vertices[i], f.levels[i])
  }

  /** Once each, nearest first. */
  ghost predicate InOrder(vertices: seq<int>, levels: seq<int>) {
    |vertices| == |levels| &&
    forall i, j | 0 <= i < j < |vertices| :: vertices[i] != vertices[j] && levels[i] <= levels[j]
  }

  /** Each vertex but the first lies one step beyond its parent. */
  ghost predicate Parented(g: Graph, f: Found)
    requires |f.vertices| == |f.parents| == |f.places| == |f.levels|
  {
    forall i | 1 <= i < |f.vertices| ::
      0 <= f.places[i] < i && f.vertices[f.places[i]] == f.parents[i] && f.levels[i] == f.levels[f.places[i]] + 1 &&
      Linked(g, f.parents[i], f.vertices[i])
  }

  ghost predicate Layered(g: Graph, s: int, f: Found) {
    Shaped(g, s, f) && Walked(g, s, f) && InOrder(f.vertices, f.levels) && Parented(g, f)
  }

  /** `w` has been found, no further than one level beyond the `i`th vertex. */
  ghost predicate Reaches(f: Found, i: int, w: int)
    requires |f.vertices| == |f.levels| && 0 <= i < |f.levels|
  {
    exists k :: 0 <= k < |f.vertices| && f.vertices[k] == w && f.levels[k] <= f.levels[i] + 1
  }

  /** All edges of the first `h` vertices have been followed. */
  ghost predicate FollowedAll(g: Graph, f: Found, h: int)
    requires |f.vertices| == |f.levels| && h <= |f.vertices|
  {
    forall i, w | 0 <= i < h && Linked(g, f.vertices[i], w) :: Reaches(f, i, w)
  }

  /** So have the first `e` edges of the next one, `v`. */
  ghost predicate FollowedSome(g: Graph, f: Found, h: int, v: int, e: int)
    requires |f.vertices| == |f.levels| && 0 <= h < |f.vertices| && 0 <= v < |g| && e <= |g[v]|
  {
    forall j | 0 <= j < e :: Reaches(f, h, g[v][j].vertex_no)
  }

  ghost predicate Near(f: Found, h: int)
    requires 0 <= h < |f.levels|
  {
    forall i | 0 <= i < |f.levels| :: f.levels[i] <= f.levels[h] + 1
  }

  ghost function Added(f: Found, h: int, e: int, w: int): Found
    requires 0 <= h < |f.vertices| == |f.levels|
  {
    Found(f.vertices + [w], f.parents + [f.vertices[h]], f.places + [h], f.edges + [e], f.levels + [f.levels[h] + 1])
  }

  lemma Starts(g: Graph, s: int, parent: int)
    requires 0 <= s < |g|
    ensures var f := Found([s], [parent], [0], [0], [0]);
            Layered(g, s, f) && FollowedAll(g, f, 0) && FollowedSome(g, f, 0, s, 0) && Near(f, 0) && InTurn(g, f, 0, 0)
  {
    assert PathFromTo(g, [s], s, s);
  }

  lemma AddLayered(g: Graph, s: int, f: Found, h: int, e: int, w: int)
    requires Layered(g, s, f) && 0 <= h < |f.vertices| && 0 <= w < |g| && w !in f.vertices
    requires Linked(g, f.vertices[h], w) && Near(f, h)
    ensures Layered(g, s, Added(f, h, e, w)) && Near(Added(f, h, e, w), h)
  {
    WalkOn(g, s, f.vertices[h], w, f.levels[h]);
    hide Walk, Linked;
  }

  lemma ReachesStill(f: Found, h: int, e: int, w: int, i: int, x: int)
    requires 0 <= h < |f.vertices| == |f.levels| && 0 <= i < |f.levels| && Reaches(f, i, x)
    ensures Reaches(Added(f, h, e, w), i, x)
  {
    var k :| 0 <= k < |f.vertices| && f.vertices[k] == x && f.levels[k] <= f.levels[i] + 1;
    assert Added(f, h, e, w).vertices[k] == x;
  }

  /** A new vertex is found along edge `e`. */
  lemma FindNew(g: Graph, f: Found, h: int, v: int, e: int)
    requires |f.vertices| == |f.levels| && 0 <= h < |f.vertices| && f.vertices[h] == v && 0 <= v < |g| &&
             0 <= e < |g[v]|
    requires FollowedAll(g, f, h) && FollowedSome(g, f, h, v, e)
    ensures var f' := Added(f, h, e, g[v][e].vertex_no); FollowedAll(g, f', h) && FollowedSome(g, f', h, v, e + 1)
  {
    hide Reaches;
    var w := g[v][e].vertex_no;
    var f' := Added(f, h, e, w);
    forall i, x | 0 <= i < h && Linked(g, f'.vertices[i], x) ensures Reaches(f', i, x) {
      assert f'.vertices[i] == f.vertices[i];
      ReachesStill(f, h, e, w, i, x);
    }
    forall j | 0 <= j < e + 1 ensures Reaches(f', h, g[v][j].vertex_no) {
      if j < e {
        ReachesStill(f, h, e, w, h, g[v][j].vertex_no);
      } else {
        ReachesAdded(f, h, e, w);
      }
    }
  }

  lemma ReachesAdded(f: Found, h: int, e: int, w: int)
    requires 0 <= h < |f.vertices| == |f.levels|
    ensures Reaches(Added(f, h, e, w), h, w)
  {
    assert Added(f, h, e, w).vertices[|f.vertices|] == w;
  }

  // ---------- The order of the search ----------

  /** Edge `e` of the vertex in place `i` is looked at before edge `d` of the one in place `j`. */
  ghost predicate Before(i: int, e: int, j: int, d: int) {
    i < j || (i == j && e < d)
  }

  /** The `i`th vertex was found along the first edge looked at that leads to it. */
  ghost predicate FoundAlong(g: Graph, f: Found, i: int)
    requires 0 <= i < |f.vertices| == |f.places| == |f.edges|
  {
    var p := f.places[i];
    0 <= p < i && 0 <= f.vertices[p] < |g| && 0 <= f.edges[i] < |g[f.vertices[p]]| &&
    g[f.vertices[p]][f.edges[i]].vertex_no == f.vertices[i] &&
    forall k, e | 0 <= k <= p && 0 <= f.vertices[k] < |g| && 0 <= e < |g[f.vertices[k]]| ::
      Before(k, e, p, f.edges[i]) ==> g[f.vertices[k]][e].vertex_no != f.vertices[i]
  }

  /** All were found so, one after the other, before edge `e` of the `h`th vertex is looked at. */
  ghost predicate InTurn(g: Graph, f: Found, h: int, e: int) {
    |f.vertices| == |f.places| == |f.edges| &&
    (forall i | 1 <= i < |f.vertices| :: FoundAlong(g, f, i) && Before(f.places[i], f.edges[i], h, e)) &&
    forall i, j | 1 <= i < j < |f.vertices| :: Before(f.places[i], f.edges[i], f.places[j], f.edges[j])
  }

  lemma AlongStill(g: Graph, f: Found, h: int, e: int, w: int, i: int)
    requires 0 <= h < |f.levels| == |f.vertices| == |f.places| == |f.edges| && 0 <= i < |f.vertices|
    requires FoundAlong(g, f, i)
    ensures FoundAlong(g, Added(f, h, e, w), i)
  {
    var f' := Added(f, h, e, w);
    assert forall k | 0 <= k <= f.places[i] :: f'.vertices[k] == f.vertices[k];
  }

  lemma AlongAdded(g: Graph, f: Found, h: int, v: int, e: int)
    requires 0 <= h < |f.levels| == |f.vertices| == |f.places| == |f.edges| && f.vertices[h] == v && 0 <= v < |g| &&
             0 <= e < |g[v]| && g[v][e].vertex_no !in f.vertices
    requires FollowedAll(g, f, h) && FollowedSome(g, f, h, v, e)
    ensures FoundAlong(g, Added(f, h, e, g[v][e].vertex_no), |f.vertices|)
  {
    var w := g[v][e].vertex_no;
    var f' := Added(f, h, e, w);
    forall k, d | 0 <= k <= h && 0 <= f'.vertices[k] < |g| && 0 <= d < |g[f'.vertices[k]]| && Before(k, d, h, e)
      ensures g[f'.vertices[k]][d].vertex_no != w
    {
      assert f'.vertices[k] == f.vertices[k];
      if k < h { assert Linked(g, f.vertices[k], g[f.vertices[k]][d].vertex_no); }
      assert Reaches(f, k, g[f.vertices[k]][d].vertex_no);
    }
  }

  /** A vertex found along edge `e` takes its turn. */
  lemma TurnNew(g: Graph, f: Found, h: int, v: int, e: int)
    requires 0 <= h < |f.levels| == |f.vertices| && f.vertices[h] == v && 0 <= v < |g| && 0 <= e < |g[v]| &&
             g[v][e].vertex_no !in f.vertices
    requires InTurn(g, f, h, e) && FollowedAll(g, f, h) && FollowedSome(g, f, h, v, e)
    ensures InTurn(g, Added(f, h, e, g[v][e].vertex_no), h, e + 1)
  {
    var f' := Added(f, h, e, g[v][e].vertex_no);
    AlongAdded(g, f, h, v, e);
    forall i | 1 <= i < |f.vertices| ensures FoundAlong(g, f', i) {
      AlongStill(g, f, h, e, g[v][e].vertex_no, i);
    }
    hide FoundAlong, FollowedAll, FollowedSome;
  }

  lemma TurnOn(g: Graph, f: Found, h: int, e: int, h': int, e': int)
    requires InTurn(g, f, h, e) && (h < h' || (h == h' && e <= e'))
    ensures InTurn(g, f, h', e')
  {
    hide FoundAlong;
  }

  /** What the order of the search means: of the vertices that lead to one, its parent was found first, and the
      children of a vertex come in the order of its edges. */
  lemma TurnsAre(g: Graph, f: Found, h: int, e: int, i: int)
    requires InTurn(g, f, h, e) && 1 <= i < |f.vertices|
    ensures 0 <= f.places[i] < i
    ensures forall k | 0 <= k < |f.vertices| && Linked(g, f.vertices[k], f.vertices[i]) :: f.places[i] <= k
    ensures forall j | i < j < |f.vertices| :: f.places[i] <= f.places[j]
    ensures forall j | i < j < |f.vertices| && f.places[j] == f.places[i] ::
              var v := f.vertices[f.places[i]];
              0 <= v < |g| && exists a :: 0 <= a < |g[v]| && g[v][a].vertex_no == f.vertices[i] &&
                                          forall b | 0 <= b < |g[v]| && g[v][b].vertex_no == f.vertices[j] :: a < b
  {
    assert FoundAlong(g, f, i);
    forall k | 0 <= k < |f.vertices| && Linked(g, f.vertices[k], f.vertices[i]) ensures f.places[i] <= k {
      var d :| 0 <= d < |g[f.vertices[k]]| && g[f.vertices[k]][d].vertex_no == f.vertices[i];
    }
    forall j | i < j < |f.vertices| && f.places[j] == f.places[i]
      ensures var v, a := f.vertices[f.places[i]], f.edges[i];
              0 <= v < |g| && 0 <= a < |g[v]| && g[v][a].vertex_no == f.vertices[i] &&
              forall b | 0 <= b < |g[v]| && g[v][b].vertex_no == f.vertices[j] :: a < b
    {
      assert FoundAlong(g, f, j) && Before(f.places[i], f.edges[i], f.places[j], f.edges[j]);
    }
  }

  /** Edge `e` leads to a vertex found before. */
  lemma FindOld(g: Graph, f: Found, h: int, v: int, e: int)
    requires |f.vertices| == |f.levels| && 0 <= h < |f.vertices| && 0 <= v < |g| && 0 <= e < |g[v]|
    requires FollowedSome(g, f, h, v, e) && Near(f, h) && g[v][e].vertex_no in f.vertices
    ensures FollowedSome(g, f, h, v, e + 1)
  {
    var w := g[v][e].vertex_no;
    var k :| 0 <= k < |f.vertices| && f.vertices[k] == w;
    assert Reaches(f, h, w);
  }

  /** The next vertex of the queue is taken. */
  lemma NextHead(g: Graph, f: Found, h: int, v: int)
    requires InOrder(f.vertices, f.levels) && 0 <= h < |f.vertices| && f.vertices[h] == v && 0 <= v < |g|
    requires FollowedAll(g, f, h) && FollowedSome(g, f, h, v, |g[v]|) && Near(f, h)
    ensures FollowedAll(g, f, h + 1) && (h + 1 < |f.vertices| ==> Near(f, h + 1))
  {
    forall i, w | 0 <= i < h + 1 && Linked(g, f.vertices[i], w) ensures Reaches(f, i, w) {
      if i == h {
        var j :| 0 <= j < |g[v]| && g[v][j].vertex_no == w;
      }
    }
  }

  /** All edges followed: along any path the levels rise by at most one an edge. */
  lemma {:induction false} LevelsBound(g: Graph, s: int, f: Found, p: seq<int>, k: nat) returns (i: int)
    requires Shaped(g, s, f) && FollowedAll(g, f, |f.vertices|) && IsPath(g, p) && p[0] == s && k < |p|
    ensures 0 <= i < |f.vertices| && f.vertices[i] == p[k] && f.levels[i] <= k
  {
    if k == 0 {
      i := 0;
    } else {
      var j := LevelsBound(g, s, f, p, k - 1);
      assert Linked(g, p[k - 1], p[k - 1 + 1]);
      assert Reaches(f, j, p[k]);
      i :| 0 <= i < |f.vertices| && f.vertices[i] == p[k] && f.levels[i] <= f.levels[j] + 1;
    }
  }

  /** The result: exactly the reachable vertices, once each, in order of distance, each after the first one
      step further away than its parent. */
  ghost predicate IsResult(g: Graph, s: int, vertices: seq<int>, parents: seq<int>, levels: seq<int>) {
    |parents| == |vertices| > 0 && vertices[0] == s && InOrder(vertices, levels) &&
    (forall v :: v in vertices <==> Reach(g, s, v)) &&
    (forall i | 0 <= i < |vertices| :: Distance(g, s, vertices[i], levels[i])) &&
    (forall i | 1 <= i < |vertices| :: Linked(g, parents[i], vertices[i]) && Distance(g, s, parents[i], levels[i] - 1))
  }

  lemma LevelIsDistance(g: Graph, s: int, f: Found, i: int)
    requires Layered(g, s, f) && FollowedAll(g, f, |f.vertices|) && 0 <= i < |f.vertices|
    ensures Distance(g, s, f.vertices[i], f.levels[i])
  {
    var v := f.vertices[i];
    hide Parented, FollowedAll;
    forall e | Walk(g, s, v, e) ensures f.levels[i] <= e {
      var p :| PathFromTo(g, p, s, v) && |p| == e + 1;
      var k := LevelsBound(g, s, f, p, e);
      assert k == i;
    }
  }

  lemma ReachedFound(g: Graph, s: int, f: Found, v: int)
    requires Shaped(g, s, f) && Walked(g, s, f) && FollowedAll(g, f, |f.vertices|)
    ensures v in f.vertices <==> Reach(g, s, v)
  {
    hide FollowedAll;
    if v in f.vertices {
      var i :| 0 <= i < |f.vertices| && f.vertices[i] == v;
      assert Walk(g, s, v, f.levels[i]);
    }
    if Reach(g, s, v) {
      var p :| PathFromTo(g, p, s, v);
      var i := LevelsBound(g, s, f, p, |p| - 1);
    }
  }

  lemma AllFound(g: Graph, s: int, f: Found)
    requires Layered(g, s, f) && FollowedAll(g, f, |f.vertices|)
    ensures IsResult(g, s, f.vertices, f.parents, f.levels)
  {
    hide Walk, Distance, FollowedAll, Reach;
    forall v ensures v in f.vertices <==> Reach(g, s, v) {
      ReachedFound(g, s, f, v);
    }
    forall i | 0 <= i < |f.vertices| ensures Distance(g, s, f.vertices[i], f.levels[i]) {
      LevelIsDistance(g, s, f, i);
    }
    hide Walked;
    forall i | 1 <= i < |f.vertices|
      ensures Linked(g, f.parents[i], f.vertices[i]) && Distance(g, s, f.parents[i], f.levels[i] - 1)
    {
      assert Distance(g, s, f.vertices[f.places[i]], f.levels[f.places[i]]);
    }
  }

  // ---------- The program ----------

  /** `visit_nos` inverts the first `c` entries of `vertices`. */
  ghost predicate Numbered(vertices: seq<int>, visit_nos: seq<int>, c: int) {
    c <= |vertices| && (forall i | 0 <= i < c :: 0 <= vertices[i] < |visit_nos| && visit_nos[vertices[i]] == i) &&
    forall v | 0 <= v < |visit_nos| ::
      visit_nos[v] == UNDEFINED || (0 <= visit_nos[v] < c && vertices[visit_nos[v]] == v)
  }

  lemma OneMore(vertices: seq<int>, visit_nos: seq<int>, c: int, w: int)
    requires Numbered(vertices, visit_nos, c) && 0 <= c < |vertices| && 0 <= w < |visit_nos| &&
             visit_nos[w] == UNDEFINED
    ensures Numbered(vertices[c := w], visit_nos[w := c], c + 1)
  {
  }

  lemma Known(vertices: seq<int>, visit_nos: seq<int>, c: int, w: int)
    requires Numbered(vertices, visit_nos, c) && 0 <= c && 0 <= w < |visit_nos|
    ensures visit_nos[w] == UNDEFINED <==> w !in vertices[..c]
  {
    if visit_nos[w] != UNDEFINED { assert vertices[..c][visit_nos[w]] == w; }
  }

  /** Distinct vertices are at most as many as the graph has, so one more fits as long as one is missing. */
  lemma RoomFor(vertices: seq<int>, visit_nos: seq<int>, c: int, w: int)
    requires Numbered(vertices, visit_nos, c) && 0 <= c && 0 <= w < |visit_nos| == |vertices| &&
             visit_nos[w] == UNDEFINED
    ensures c < |vertices|
  {
    var s := vertices[..c] + [w];
    forall i, j | 0 <= i < j < |s| ensures s[i] != s[j] {
      assert visit_nos[s[i]] == i;
    }
    Pigeonhole(s, |visit_nos|);
  }

  /** The arrays and the queue hold `f`, of which the first `h` vertices have left the queue. */
  ghost predicate Holds(g: Graph, f: Found, h: int, vertices: array<int>, parents: array<int>, visit_nos: array<int>,
                        c: int, queue: seq<int>)
    reads vertices, parents, visit_nos
  {
    vertices != parents && vertices != visit_nos && parents != visit_nos &&
    vertices.Length == parents.Length == visit_nos.Length == |g| && 0 <= h <= c <= |g| &&
    1 <= c && parents[0] == UNDEFINED &&
    |f.vertices| == |f.parents| == |f.levels| == c && vertices[..c] == f.vertices && parents[..c] == f.parents &&
    queue == f.vertices[h..] && Numbered(vertices[..], visit_nos[..], c) &&
    forall i | c <= i < |g| :: vertices[i] == parents[i] == UNDEFINED
  }

  /** Follows edge `e` of `v`, the head of the queue. */
  method Follow(g: Graph, s: int, v: int, w: int, e: int, vertices: array<int>, parents: array<int>,
                visit_nos: array<int>,
                c0: int, queue0: seq<int>, ghost f0: Found, ghost h: int)
      returns (c: int, queue: seq<int>, ghost f: Found)
    requires IsGraph(g) && Holds(g, f0, h, vertices, parents, visit_nos, c0, queue0) && Layered(g, s, f0) && h < c0
    requires 0 <= v < |g| && f0.vertices[h] == v && 0 <= e < |g[v]| && w == g[v][e].vertex_no
    requires FollowedAll(g, f0, h) && FollowedSome(g, f0, h, v, e) && Near(f0, h) && InTurn(g, f0, h, e)
    modifies vertices, parents, visit_nos
    ensures Holds(g, f, h, vertices, parents, visit_nos, c, queue) && Layered(g, s, f) && c0 <= c && f.vertices[h] == v
    ensures FollowedAll(g, f, h) && FollowedSome(g, f, h, v, e + 1) && Near(f, h) && InTurn(g, f, h, e + 1)
  {
    hide Layered, FollowedAll, FollowedSome, Near, InTurn, Numbered, IsGraph;
    c, queue, f := c0, queue0, f0;
    EdgeEnd(g, v, e);
    ghost var vs, ns := vertices[..], visit_nos[..];
    Known(vs, ns, c, w);
    assert vs[..c] == f.vertices;
    if visit_nos[w] == UNDEFINED {
      RoomFor(vs, ns, c, w);
      OneMore(vs, ns, c, w);
      AddLayered(g, s, f, h, e, w);
      FindNew(g, f, h, v, e);
      TurnNew(g, f, h, v, e);
      queue := queue + [w];
      parents[c] := v;
      vertices[c] := w;
      visit_nos[w] := c;
      assert vertices[..] == vs[c := w] && visit_nos[..] == ns[w := c];
      c := c + 1;
      f := Added(f, h, e, w);
    } else {
      FindOld(g, f, h, v, e);
      TurnOn(g, f, h, e, h, e + 1);
    }
  }

  lemma EdgeEnd(g: Graph, v: int, e: int)
    requires IsGraph(g) && 0 <= v < |g| && 0 <= e < |g[v]|
    ensures 0 <= g[v][e].vertex_no < |g| && Linked(g, v, g[v][e].vertex_no)
  {
  }

  /** Follows all edges of `v`, the head of the queue, which then leaves the queue. */
  method Expand(g: Graph, s: int, vertices: array<int>, parents: array<int>, visit_nos: array<int>,
                c0: int, queue0: seq<int>, ghost f0: Found, ghost h: int)
      returns (c: int, queue: seq<int>, ghost f: Found)
    requires IsGraph(g) && Holds(g, f0, h, vertices, parents, visit_nos, c0, queue0) && Layered(g, s, f0) && h < c0
    requires FollowedAll(g, f0, h) && Near(f0, h) && InTurn(g, f0, h, 0)
    modifies vertices, parents, visit_nos
    ensures Holds(g, f, h + 1, vertices, parents, visit_nos, c, queue) && Layered(g, s, f) && c0 <= c
    ensures FollowedAll(g, f, h + 1) && (h + 1 < c ==> Near(f, h + 1)) && InTurn(g, f, h + 1, 0)
  {
    hide Layered, FollowedAll, FollowedSome, Near, InTurn, Numbered, IsGraph;
    c, queue, f := c0, queue0, f0;
    var v := queue[0];
    HeadInGraph(g, s, f, h);
    NothingFollowed(g, f, h, v);
    var i := 0;
    while i < |g[v]|
      invariant 0 <= i <= |g[v]| && h < c0 <= c
      invariant Holds(g, f, h, vertices, parents, visit_nos, c, queue) && Layered(g, s, f) && f.vertices[h] == v
      invariant FollowedAll(g, f, h) && FollowedSome(g, f, h, v, i) && Near(f, h) &&
                InTurn(g, f, h, i)
    {
      c, queue, f := Follow(g, s, v, g[v][i].vertex_no, i, vertices, parents, visit_nos, c, queue, f, h);
      i := i + 1;
    }
    InOrderFound(g, s, f);
    NextHead(g, f, h, v);
    TurnOn(g, f, h, i, h + 1, 0);
    queue := queue[1..];
  }

  lemma Inverse(vertices: seq<int>, visit_nos: seq<int>, c: int)
    requires 0 <= c && Numbered(vertices, visit_nos, c)
    ensures forall i | 0 <= i < c :: 0 <= vertices[i] < |visit_nos| && visit_nos[vertices[i]] == i
    ensures forall v | 0 <= v < |visit_nos| && v !in vertices[..c] :: visit_nos[v] == -1
  {
    forall v | 0 <= v < |visit_nos| && v !in vertices[..c] ensures visit_nos[v] == -1 {
      Known(vertices, visit_nos, c, v);
    }
  }

  /** The order of the search, in terms of the arrays. */
  lemma ParentsFound(g: Graph, s: int, f: Found, h: int, vertices: seq<int>, parents: seq<int>, visit_nos: seq<int>)
    requires Layered(g, s, f) && InTurn(g, f, h, 0)
    requires |vertices| == |parents| == |visit_nos| == |g| && |f.vertices| <= |g|
    requires vertices[..|f.vertices|] == f.vertices && parents[..|f.vertices|] == f.parents
    requires forall i | 0 <= i < |f.vertices| :: 0 <= vertices[i] < |g| && visit_nos[vertices[i]] == i
    ensures var n := |f.vertices|;
            (forall i | 1 <= i < n :: 0 <= parents[i] < |g| && 0 <= visit_nos[parents[i]] < i) &&
            (forall i, k | 1 <= i < n && 0 <= k < n && Linked(g, vertices[k], vertices[i]) ::
               visit_nos[parents[i]] <= k) &&
            forall i, j | 1 <= i < j < n ::
              visit_nos[parents[i]] <= visit_nos[parents[j]] &&
              (parents[i] == parents[j] ==>
                 exists a :: 0 <= a < |g[parents[i]]| && g[parents[i]][a].vertex_no == vertices[i] &&
                             forall b | 0 <= b < |g[parents[i]]| && g[parents[i]][b].vertex_no == vertices[j] :: a < b)
  {
    hide InTurn, Linked;
    forall i | 1 <= i < |f.vertices|
      ensures 0 <= f.places[i] < i && parents[i] == f.vertices[f.places[i]] == vertices[f.places[i]]
    {
      TurnsAre(g, f, h, 0, i);
      assert f.parents[i] == parents[i];
    }
    hide Layered;
    forall i, k | 1 <= i < |f.vertices| && 0 <= k < |f.vertices| && Linked(g, vertices[k], vertices[i])
      ensures visit_nos[parents[i]] <= k
    {
      TurnsAre(g, f, h, 0, i);
      assert Linked(g, f.vertices[k], f.vertices[i]);
    }
    forall i, j | 1 <= i < j < |f.vertices|
      ensures visit_nos[parents[i]] <= visit_nos[parents[j]] &&
              (parents[i] == parents[j] ==>
                 exists a :: 0 <= a < |g[parents[i]]| && g[parents[i]][a].vertex_no == vertices[i] &&
                             forall b | 0 <= b < |g[parents[i]]| && g[parents[i]][b].vertex_no == vertices[j] :: a < b)
    {
      TurnsAre(g, f, h, 0, i);
      assert f.vertices[i] == vertices[i] && f.vertices[j] == vertices[j];
    }
  }

  /** The arrays with only the start vertex found. */
  method SetUp(g: Graph, v0: int) returns (vertices: array<int>, parents: array<int>, visit_nos: array<int>)
    requires 0 <= v0 < |g|
    ensures fresh(vertices) && fresh(parents) && fresh(visit_nos)
    ensures Holds(g, Found([v0], [UNDEFINED], [0], [0], [0]), 0, vertices, parents, visit_nos, 1, [v0])
  {
    vertices := new int[|g|](_ => UNDEFINED);
    parents := new int[|g|](_ => UNDEFINED);
    visit_nos := new int[|g|](_ => UNDEFINED);
    vertices[0] := v0;
    visit_nos[v0] := 0;
    FirstNumbered(vertices[..], visit_nos[..], v0);
    hide Numbered;
    assert vertices[..1] == [v0] && parents[..1] == [UNDEFINED];
  }

  /** `bfs`. */
  method Bfs(g: Graph, v0: int)
      returns (n: int, vertices: array<int>, parents: array<int>, visit_nos: array<int>, ghost levels: seq<int>)
    requires IsGraph(g) && 0 <= v0 < |g|
    ensures vertices.Length == parents.Length == visit_nos.Length == |g| && 1 <= n <= |g|
    ensures IsResult(g, v0, vertices[..n], parents[..n], levels)
    ensures parents[0] == -1 && forall i | n <= i < |g| :: vertices[i] == parents[i] == -1
    ensures forall i | 0 <= i < n :: 0 <= vertices[i] < |g| && visit_nos[vertices[i]] == i
    ensures forall v | 0 <= v < |g| && v !in vertices[..n] :: visit_nos[v] == -1
    ensures forall i | 1 <= i < n :: 0 <= parents[i] < |g| && 0 <= visit_nos[parents[i]] < i
    ensures forall i, k | 1 <= i < n && 0 <= k < n && Linked(g, vertices[k], vertices[i]) :: visit_nos[parents[i]] <= k
    ensures forall i, j | 1 <= i < j < n ::
              visit_nos[parents[i]] <= visit_nos[parents[j]] &&
              (parents[i] == parents[j] ==>
                 exists a :: 0 <= a < |g[parents[i]]| && g[parents[i]][a].vertex_no == vertices[i] &&
                             forall b | 0 <= b < |g[parents[i]]| && g[parents[i]][b].vertex_no == vertices[j] :: a < b)
  {
    hide Layered, FollowedAll, FollowedSome, Near, InTurn, Numbered, IsGraph, IsResult;
    vertices, parents, visit_nos := SetUp(g, v0);
    var queue, c := [v0], 1;
    ghost var f, h := Found([v0], [UNDEFINED], [0], [0], [0]), 0;
    Starts(g, v0, UNDEFINED);
    var more := true;
    while more
      invariant fresh(vertices) && fresh(parents) && fresh(visit_nos)
      invariant Holds(g, f, h, vertices, parents, visit_nos, c, queue) && Layered(g, v0, f) && FollowedAll(g, f, h) &&
                InTurn(g, f, h, 0)
      invariant if more then h < c && Near(f, h) else h == c
      decreases |g| - h, more
    {
      c, queue, f := Expand(g, v0, vertices, parents, visit_nos, c, queue, f, h);
      h := h + 1;
      more := queue != [];
    }
    AllFound(g, v0, f);
    n, levels := c, f.levels;
    Inverse(vertices[..], visit_nos[..], n);
    ParentsFound(g, v0, f, h, vertices[..], parents[..], visit_nos[..]);
  }

  lemma FirstNumbered(vertices: seq<int>, visit_nos: seq<int>, v0: int)
    requires 0 <= v0 < |visit_nos| == |vertices| && vertices[0] == v0 && visit_nos[v0] == 0
    requires forall v | 0 <= v < |visit_nos| && v != v0 :: visit_nos[v] == UNDEFINED
    ensures Numbered(vertices, visit_nos, 1)
  {
  }

  lemma HeadInGraph(g: Graph, s: int, f: Found, h: int)
    requires Layered(g, s, f) && 0 <= h < |f.vertices|
    ensures 0 <= f.vertices[h] < |g|
  {
  }

  lemma NothingFollowed(g: Graph, f: Found, h: int, v: int)
    requires |f.vertices| == |f.levels| && 0 <= h < |f.vertices| && 0 <= v < |g|
    ensures FollowedSome(g, f, h, v, 0)
  {
  }

  lemma InOrderFound(g: Graph, s: int, f: Found)
    requires Layered(g, s, f)
    ensures InOrder(f.vertices, f.levels)
  {
  }
}

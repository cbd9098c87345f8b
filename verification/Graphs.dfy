/** Directed graphs (italos/include/lib/dgraph.h): for each vertex the list of its outgoing edges. */
module Graphs {

  datatype Edge = Edge(vertex_no: int, dist: int)

  type Graph = seq<seq<Edge>>

  /** Every edge leads to a vertex of the graph. */
  ghost predicate IsGraph(g: Graph) {
    forall v, i | 0 <= v < |g| && 0 <= i < |g[v]| :: 0 <= g[v][i].vertex_no < |g|
  }

  ghost predicate Linked(g: Graph, u: int, v: int) {
    0 <= u < |g| && exists i :: 0 <= i < |g[u]| && g[u][i].vertex_no == v
  }

  ghost predicate IsPath(g: Graph, p: seq<int>) {
    p != [] && forall i | 0 <= i < |p| - 1 :: Linked(g, p[i], p[i + 1])
  }

  ghost predicate PathFromTo(g: Graph, p: seq<int>, u: int, v: int) {
    IsPath(g, p) && p[0] == u && p[|p| - 1] == v
  }

  ghost predicate Reach(g: Graph, u: int, v: int) {
    exists p :: PathFromTo(g, p, u, v)
  }

  lemma ReachSelf(g: Graph, u: int)
    ensures Reach(g, u, u)
  {
    assert PathFromTo(g, [u], u, u);
  }

  lemma ReachLink(g: Graph, u: int, v: int)
    requires Linked(g, u, v)
    ensures Reach(g, u, v)
  {
    assert PathFromTo(g, [u, v], u, v);
  }

  lemma ReachTrans(g: Graph, u: int, v: int, w: int)
    requires Reach(g, u, v) && Reach(g, v, w)
    ensures Reach(g, u, w)
  {
    var p :| PathFromTo(g, p, u, v);
    var q :| PathFromTo(g, q, v, w);
    var r := p + q[1..];
    forall i | 0 <= i < |r| - 1 ensures Linked(g, r[i], r[i + 1]) {
      if i >= |p| - 1 {
        assert r[i] == q[i - |p| + 1] && r[i + 1] == q[i - |p| + 2];
      }
    }
    assert PathFromTo(g, r, u, w);
  }

  ghost predicate Mutual(g: Graph, u: int, v: int) {
    Reach(g, u, v) && Reach(g, v, u)
  }

  /** No edge leads out of `s`. */
  ghost predicate Closed(g: Graph, s: set<int>) {
    forall u, v | u in s && Linked(g, u, v) :: v in s
  }

  lemma {:induction false} PathStays(g: Graph, s: set<int>, p: seq<int>, k: nat)
    requires Closed(g, s) && IsPath(g, p) && p[0] in s && k < |p|
    ensures p[k] in s
  {
    if k > 0 {
      PathStays(g, s, p, k - 1);
      assert Linked(g, p[k - 1], p[k]);
    }
  }

  lemma ReachStays(g: Graph, s: set<int>, u: int, v: int)
    requires Closed(g, s) && u in s && Reach(g, u, v)
    ensures v in s
  {
    var p :| PathFromTo(g, p, u, v);
    PathStays(g, s, p, |p| - 1);
  }
}

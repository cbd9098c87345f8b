/** Prim's minimum spanning tree (italos/lib/mst.c), running on the binary heap. */
module SpanningTrees {
  import opened Graphs
  import opened BinaryHeap
  import opened Counting
  import opened Sequences

  // ---------- Weighted graphs and their spanning trees ----------

  ghost predicate Wired(g: Graph, u: int, v: int, dist: int) {
    0 <= u < |g| && Edge(v, dist) in g[u]
  }

  ghost predicate Symmetric(g: Graph) {
    forall u, v, dist | Wired(g, u, v, dist) :: Wired(g, v, u, dist)
  }

  datatype Arc = Arc(u: int, v: int, dist: int)

  ghost predicate InGraph(g: Graph, arcs: seq<Arc>) {
    forall i | 0 <= i < |arcs| :: Wired(g, arcs[i].u, arcs[i].v, arcs[i].dist)
  }

  /** Arc `e` joins `x` and `y`, in either direction. */
  ghost predicate Ends(e: Arc, x: int, y: int) {
    (e.u == x && e.v == y) || (e.u == y && e.v == x)
  }

  ghost predicate Joins(arcs: seq<Arc>, x: int, y: int) {
    exists i :: 0 <= i < |arcs| && Ends(arcs[i], x, y)
  }

  ghost predicate TiePath(arcs: seq<Arc>, s: set<int>, p: seq<int>) {
    p != [] && p[|p| - 1] in s && forall i | 0 <= i < |p| - 1 :: Joins(arcs, p[i], p[i + 1])
  }

  /** Along `arcs` there is a way from `x` into `s`. */
  ghost predicate Tied(arcs: seq<Arc>, s: set<int>, x: int) {
    exists p :: TiePath(arcs, s, p) && p[0] == x
  }

  ghost predicate TiesAll(n: int, arcs: seq<Arc>, s: set<int>) {
    forall x | 0 <= x < n :: Tied(arcs, s, x)
  }

  /** n - 1 arcs of the graph that tie all n vertices together. */
  ghost predicate SpanningTree(g: Graph, v0: int, arcs: seq<Arc>) {
    |arcs| == |g| - 1 && InGraph(g, arcs) && TiesAll(|g|, arcs, {v0})
  }

  ghost function Cost(arcs: seq<Arc>): int {
    if arcs == [] then 0 else arcs[0].dist + Cost(arcs[1..])
  }

  // ---------- Taking one arc out ----------

  ghost function Without(arcs: seq<Arc>, i: nat): seq<Arc>
    requires i < |arcs|
  {
    arcs[..i] + arcs[i + 1..]
  }

  lemma {:induction false} CostWithout(arcs: seq<Arc>, i: nat)
    requires i < |arcs|
    ensures Cost(arcs) == Cost(Without(arcs, i)) + arcs[i].dist
  {
    if i == 0 {
      assert Without(arcs, 0) == arcs[1..];
    } else {
      CostWithout(arcs[1..], i - 1);
      assert Without(arcs, i)[1..] == Without(arcs[1..], i - 1);
    }
  }

  lemma JoinsWithout(arcs: seq<Arc>, i: nat, x: int, y: int)
    requires i < |arcs| && Joins(arcs, x, y) && !Ends(arcs[i], x, y)
    ensures Joins(Without(arcs, i), x, y)
  {
    var k :| 0 <= k < |arcs| && Ends(arcs[k], x, y);
    var rest := Without(arcs, i);
    if k < i { assert rest[k] == arcs[k]; } else { assert rest[k - 1] == arcs[k]; }
  }

  lemma TiedNext(arcs: seq<Arc>, s: set<int>, x: int, y: int)
    requires Joins(arcs, x, y) && Tied(arcs, s, y)
    ensures Tied(arcs, s, x)
  {
    var p :| TiePath(arcs, s, p) && p[0] == y;
    var q := [x] + p;
    assert TiePath(arcs, s, q);
  }

  lemma TiedAtOnce(arcs: seq<Arc>, s: set<int>, x: int)
    requires x in s
    ensures Tied(arcs, s, x)
  {
    assert TiePath(arcs, s, [x]);
  }

  /** Where the path first enters `s`. */
  lemma {:induction false} Entry(p: seq<int>, s: set<int>) returns (j: nat)
    requires p != [] && p[|p| - 1] in s
    ensures j < |p| && p[j] in s && forall i | 0 <= i < j :: p[i] !in s
  {
    if p[0] in s {
      j := 0;
    } else {
      j := Entry(p[1..], s);
      j := j + 1;
      forall i | 0 <= i < j ensures p[i] !in s {
        if i > 0 { assert p[i] == p[1..][i - 1]; }
      }
    }
  }

  /** Backwards along a path that arc `i` is no part of, everything is tied to its start. */
  lemma {:induction false} TiedBack(arcs: seq<Arc>, i: nat, s: set<int>, p: seq<int>, k: nat)
    requires i < |arcs| && k < |p| && p[0] in s
    requires forall j | 0 <= j < k :: Joins(arcs, p[j], p[j + 1]) && !Ends(arcs[i], p[j], p[j + 1])
    ensures Tied(Without(arcs, i), s, p[k])
  {
    if k == 0 {
      TiedAtOnce(Without(arcs, i), s, p[0]);
    } else {
      TiedBack(arcs, i, s, p, k - 1);
      JoinsWithout(arcs, i, p[k - 1], p[k]);
      var l :| 0 <= l < |Without(arcs, i)| && Ends(Without(arcs, i)[l], p[k - 1], p[k]);
      assert Ends(Without(arcs, i)[l], p[k], p[k - 1]);
      TiedNext(Without(arcs, i), s, p[k], p[k - 1]);
    }
  }

  lemma TiePathTail(arcs: seq<Arc>, s: set<int>, p: seq<int>)
    requires TiePath(arcs, s, p) && |p| > 1
    ensures TiePath(arcs, s, p[1..]) && Joins(arcs, p[0], p[1])
  {
    var q := p[1..];
    forall j | 0 <= j < |q| - 1 ensures Joins(arcs, q[j], q[j + 1]) {
      assert Joins(arcs, p[j + 1], p[j + 1 + 1]);
    }
    assert Joins(arcs, p[0], p[0 + 1]);
  }

  /** What was tied to `s` stays tied to the larger set `s'` without arc `i`, if both its ends are tied. */
  lemma {:induction false} StillTied(arcs: seq<Arc>, i: nat, s: set<int>, s': set<int>, p: seq<int>)
    requires i < |arcs| && s <= s' && TiePath(arcs, s, p)
    requires Tied(Without(arcs, i), s', arcs[i].u) && Tied(Without(arcs, i), s', arcs[i].v)
    ensures Tied(Without(arcs, i), s', p[0])
  {
    if |p| == 1 {
      TiedAtOnce(Without(arcs, i), s', p[0]);
    } else if !Ends(arcs[i], p[0], p[1]) {
      TiePathTail(arcs, s, p);
      StillTied(arcs, i, s, s', p[1..]);
      assert Joins(arcs, p[0], p[1]);
      JoinsWithout(arcs, i, p[0], p[1]);
      TiedNext(Without(arcs, i), s', p[0], p[1]);
    }
  }

  /** Once `v` is in the set, one arc that crosses the border of `s` can be spared. */
  lemma DropCrossing(n: int, arcs: seq<Arc>, s: set<int>, v: int) returns (i: nat)
    requires TiesAll(n, arcs, s) && 0 <= v < n && v !in s
    ensures i < |arcs| && (arcs[i].u in s <==> arcs[i].v !in s) && TiesAll(n, Without(arcs, i), s + {v})
  {
    assert Tied(arcs, s, v);
    var p :| TiePath(arcs, s, p) && p[0] == v;
    var j := Entry(p, s);
    assert Joins(arcs, p[j - 1], p[j - 1 + 1]);
    i :| 0 <= i < |arcs| && Ends(arcs[i], p[j - 1], p[j]);
    var s' := s + {v};
    TiedAtOnce(Without(arcs, i), s', p[j]);
    forall k | 0 <= k < j - 1 ensures Joins(arcs, p[k], p[k + 1]) && !Ends(arcs[i], p[k], p[k + 1]) {
    }
    TiedBack(arcs, i, s', p, j - 1);
    forall x | 0 <= x < n ensures Tied(Without(arcs, i), s', x) {
      assert Tied(arcs, s, x);
      var q :| TiePath(arcs, s, q) && q[0] == x;
      StillTied(arcs, i, s, s', q);
    }
  }

  // ---------- Growing a tree by lightest crossing edges ----------

  /** `reached[w]` and `d[w]` name a lightest edge from the vertices `s` to a vertex outside, namely `w`. */
  ghost predicate Lightest(g: Graph, s: set<int>, w: int, from: int, dist: int) {
    from in s && Wired(g, from, w, dist) &&
    forall a, b, c | a in s && b !in s && Wired(g, a, b, c) :: dist <= c
  }

  /** Each vertex of `order` but the first was added along a lightest edge from those before it. */
  ghost predicate Grown(g: Graph, order: seq<int>, reached: seq<int>, d: seq<int>) {
    |reached| == |d| == |g| &&
    (forall i | 0 <= i < |order| :: 0 <= order[i] < |g|) &&
    (forall i, j | 0 <= i < j < |order| :: order[i] != order[j]) &&
    (forall i | 1 <= i < |order| :: Lightest(g, Range(order[..i]), order[i], reached[order[i]], d[order[i]]))
  }

  ghost function TreeArc(w: int, reached: seq<int>, d: seq<int>): Arc
    requires 0 <= w < |reached| == |d|
  {
    Arc(reached[w], w, d[w])
  }

  /** The edges along which the vertices of `order` from position `i` on were added. */
  ghost function TreeFrom(order: seq<int>, reached: seq<int>, d: seq<int>, i: nat): seq<Arc>
    requires |reached| == |d| && forall j | 0 <= j < |order| :: 0 <= order[j] < |d|
    decreases |order| - i
  {
    if i >= |order| then [] else [TreeArc(order[i], reached, d)] + TreeFrom(order, reached, d, i + 1)
  }

  lemma {:induction false} TreeAt(order: seq<int>, reached: seq<int>, d: seq<int>, i: nat, k: nat)
    requires |reached| == |d| && (forall j | 0 <= j < |order| :: 0 <= order[j] < |d|) && i <= k < |order|
    ensures |TreeFrom(order, reached, d, i)| == |order| - i
    ensures TreeFrom(order, reached, d, i)[k - i] == TreeArc(order[k], reached, d)
    decreases |order| - i
  {
    if i < k {
      TreeAt(order, reached, d, i + 1, k);
    } else if i + 1 < |order| {
      TreeAt(order, reached, d, i + 1, i + 1);
    }
  }

  lemma RangeStep(order: seq<int>, i: nat)
    requires i < |order| && forall a, b | 0 <= a < b < |order| :: order[a] != order[b]
    ensures Range(order[..i + 1]) == Range(order[..i]) + {order[i]} && order[i] !in Range(order[..i])
  {
    assert order[..i + 1] == order[..i] + [order[i]];
  }

  /** Some arc, no lighter than the next edge of the tree, can be spared once that is added. */
  lemma SparedArc(g: Graph, order: seq<int>, reached: seq<int>, d: seq<int>, i: nat, arcs: seq<Arc>) returns (k: nat)
    requires Symmetric(g) && Grown(g, order, reached, d) && 1 <= i < |order|
    requires InGraph(g, arcs) && TiesAll(|g|, arcs, Range(order[..i]))
    ensures k < |arcs| && d[order[i]] <= arcs[k].dist
    ensures TiesAll(|g|, Without(arcs, k), Range(order[..i + 1]))
  {
    var s, v := Range(order[..i]), order[i];
    RangeStep(order, i);
    hide Range, TiesAll;
    k := DropCrossing(|g|, arcs, s, v);
    var e := arcs[k];
    assert Lightest(g, s, v, reached[v], d[v]);
    assert Wired(g, e.u, e.v, e.dist) && Wired(g, e.v, e.u, e.dist);
  }

  /** From position `i` on, no other list of arcs that ties everything to the first `i` vertices is cheaper. */
  lemma {:induction false} Cheapest(g: Graph, order: seq<int>, reached: seq<int>, d: seq<int>, i: nat, arcs: seq<Arc>)
    requires Symmetric(g) && Grown(g, order, reached, d) && 1 <= i <= |order| == |g|
    requires InGraph(g, arcs) && |arcs| == |g| - i && TiesAll(|g|, arcs, Range(order[..i]))
    ensures Cost(TreeFrom(order, reached, d, i)) <= Cost(arcs)
    decreases |order| - i
  {
    hide TiesAll, Grown, InGraph, Symmetric, Cost, TreeFrom, Range, Without;
    GrownRange(g, order, reached, d);
    if i == |order| {
      NoCost(order, reached, d, i, arcs);
    } else {
      var k := SparedArc(g, order, reached, d, i, arcs);
      var rest := Without(arcs, k);
      WithoutSize(arcs, k);
      WithoutInGraph(g, arcs, k);
      Cheapest(g, order, reached, d, i + 1, rest);
      CostWithout(arcs, k);
      CostStep(order, reached, d, i);
    }
  }

  lemma NoCost(order: seq<int>, reached: seq<int>, d: seq<int>, i: nat, arcs: seq<Arc>)
    requires |reached| == |d| && (forall j | 0 <= j < |order| :: 0 <= order[j] < |d|) && i >= |order| && |arcs| == 0
    ensures Cost(TreeFrom(order, reached, d, i)) == Cost(arcs) == 0
  {
  }

  lemma WithoutSize(arcs: seq<Arc>, k: nat)
    requires k < |arcs|
    ensures |Without(arcs, k)| == |arcs| - 1
  {
  }

  lemma GrownRange(g: Graph, order: seq<int>, reached: seq<int>, d: seq<int>)
    requires Grown(g, order, reached, d)
    ensures |reached| == |d| == |g| && forall j | 0 <= j < |order| :: 0 <= order[j] < |d|
  {
  }

  lemma CostStep(order: seq<int>, reached: seq<int>, d: seq<int>, i: nat)
    requires |reached| == |d| && (forall j | 0 <= j < |order| :: 0 <= order[j] < |d|) && i < |order|
    ensures Cost(TreeFrom(order, reached, d, i)) == d[order[i]] + Cost(TreeFrom(order, reached, d, i + 1))
  {
    var t := TreeFrom(order, reached, d, i);
    assert t[1..] == TreeFrom(order, reached, d, i + 1);
  }

  lemma WithoutInGraph(g: Graph, arcs: seq<Arc>, k: nat)
    requires InGraph(g, arcs) && k < |arcs|
    ensures InGraph(g, Without(arcs, k))
  {
  }

  /** Every vertex added is tied to the first one by the edges along which vertices were added. */
  lemma {:induction false} GrownTied(g: Graph, order: seq<int>, reached: seq<int>, d: seq<int>, k: nat)
    requires Grown(g, order, reached, d) && k < |order|
    ensures Tied(TreeFrom(order, reached, d, 1), {order[0]}, order[k])
    decreases k
  {
    var t := TreeFrom(order, reached, d, 1);
    if k == 0 {
      TiedAtOnce(t, {order[0]}, order[0]);
    } else {
      var w := order[k];
      assert Lightest(g, Range(order[..k]), w, reached[w], d[w]);
      var j: nat :| j < |order[..k]| && order[..k][j] == reached[w];
      GrownTied(g, order, reached, d, j);
      TreeAt(order, reached, d, 1, k);
      assert Ends(t[k - 1], w, reached[w]);
      TiedNext(t, {order[0]}, w, reached[w]);
    }
  }

  lemma TreeInGraph(g: Graph, order: seq<int>, reached: seq<int>, d: seq<int>)
    requires Grown(g, order, reached, d) && order != []
    ensures |TreeFrom(order, reached, d, 1)| == |order| - 1 && InGraph(g, TreeFrom(order, reached, d, 1))
  {
    hide Grown, Lightest, Wired;
    GrownRange(g, order, reached, d);
    var t := TreeFrom(order, reached, d, 1);
    if |order| > 1 { TreeAt(order, reached, d, 1, 1); }
    hide TreeFrom;
    forall i | 0 <= i < |t| ensures Wired(g, t[i].u, t[i].v, t[i].dist) {
      TreeAt(order, reached, d, 1, i + 1);
      GrownEdge(g, order, reached, d, i + 1);
    }
  }

  lemma GrownEdge(g: Graph, order: seq<int>, reached: seq<int>, d: seq<int>, i: nat)
    requires Grown(g, order, reached, d) && 1 <= i < |order|
    ensures var w := order[i]; 0 <= w < |reached| == |d| && Wired(g, reached[w], w, d[w])
  {
    assert Lightest(g, Range(order[..i]), order[i], reached[order[i]], d[order[i]]);
  }

  /** A tree grown by lightest crossing edges until it has all vertices is a minimum spanning tree. */
  lemma GrownIsMinimal(g: Graph, order: seq<int>, reached: seq<int>, d: seq<int>)
    requires Symmetric(g) && Grown(g, order, reached, d) && |order| == |g| > 0 && forall v | 0 <= v < |g| :: v in order
    ensures SpanningTree(g, order[0], TreeFrom(order, reached, d, 1))
    ensures forall arcs | SpanningTree(g, order[0], arcs) :: Cost(TreeFrom(order, reached, d, 1)) <= Cost(arcs)
  {
    var t := TreeFrom(order, reached, d, 1);
    TreeInGraph(g, order, reached, d);
    forall x | 0 <= x < |g| ensures Tied(t, {order[0]}, x) {
      assert x in order;
      var k: nat :| k < |order| && order[k] == x;
      GrownTied(g, order, reached, d, k);
    }
    assert Range(order[..1]) == {order[0]};
    hide Tied, Grown, Range, Symmetric;
    forall arcs | SpanningTree(g, order[0], arcs) ensures Cost(t) <= Cost(arcs) {
      Cheapest(g, order, reached, d, 1, arcs);
    }
  }

  // ---------- The tree as the arrays give it ----------

  /** The edges the arrays name for the vertices below `k` other than the start vertex. */
  ghost function TreeBelow(v0: int, reached: seq<int>, d: seq<int>, k: nat): seq<Arc>
    requires k <= |reached| == |d|
  {
    if k == 0 then []
    else if k - 1 == v0 then TreeBelow(v0, reached, d, k - 1)
    else TreeBelow(v0, reached, d, k - 1) + [TreeArc(k - 1, reached, d)]
  }

  ghost function Tree(v0: int, reached: seq<int>, d: seq<int>): seq<Arc>
    requires |reached| == |d|
  {
    TreeBelow(v0, reached, d, |d|)
  }

  ghost predicate NamedBelow(v0: int, reached: seq<int>, d: seq<int>, k: nat, a: Arc)
    requires k <= |reached| == |d|
  {
    0 <= a.v < k && a.v != v0 && a == TreeArc(a.v, reached, d)
  }

  lemma {:induction false} TreeMembers(v0: int, reached: seq<int>, d: seq<int>, k: nat)
    requires k <= |reached| == |d|
    ensures var t := TreeBelow(v0, reached, d, k);
            (forall a :: a in t <==> NamedBelow(v0, reached, d, k, a)) && forall i, j | 0 <= i < j < |t| :: t[i] != t[j]
  {
    if k > 0 {
      TreeMembers(v0, reached, d, k - 1);
      var t0, t := TreeBelow(v0, reached, d, k - 1), TreeBelow(v0, reached, d, k);
      forall a ensures a in t <==> NamedBelow(v0, reached, d, k, a) {
        assert a in t0 <==> NamedBelow(v0, reached, d, k - 1, a);
      }
      if k - 1 != v0 {
        assert !NamedBelow(v0, reached, d, k - 1, TreeArc(k - 1, reached, d));
      }
    }
  }

  /** `t` lists the edges of the vertices of `order` but the first. */
  ghost predicate Follows(t: seq<Arc>, order: seq<int>, reached: seq<int>, d: seq<int>) {
    |t| == |order| - 1 && |reached| == |d| && (forall i | 0 <= i < |order| :: 0 <= order[i] < |d|) &&
    forall i | 0 <= i < |t| :: t[i] == TreeArc(order[i + 1], reached, d)
  }

  lemma GrownFollows(g: Graph, order: seq<int>, reached: seq<int>, d: seq<int>)
    requires Grown(g, order, reached, d) && order != []
    ensures Follows(TreeFrom(order, reached, d, 1), order, reached, d)
  {
    TreeInGraph(g, order, reached, d);
    var t := TreeFrom(order, reached, d, 1);
    hide Lightest, TreeFrom;
    forall i | 0 <= i < |t| ensures t[i] == TreeArc(order[i + 1], reached, d) {
      TreeAt(order, reached, d, 1, i + 1);
    }
  }

  lemma FollowsMembers(t: seq<Arc>, order: seq<int>, reached: seq<int>, d: seq<int>, a: Arc)
    requires Follows(t, order, reached, d) && forall v | 0 <= v < |d| :: v in order
    requires forall i, j | 0 <= i < j < |order| :: order[i] != order[j]
    ensures a in t <==> NamedBelow(order[0], reached, d, |d|, a)
  {
    if a in t {
      var i :| 0 <= i < |t| && t[i] == a;
      assert order[i + 1] != order[0];
    }
    if NamedBelow(order[0], reached, d, |d|, a) {
      assert a.v in order;
      var k :| 0 <= k < |order| && order[k] == a.v;
      assert t[k - 1] == a;
    }
  }

  lemma FollowsDistinct(t: seq<Arc>, order: seq<int>, reached: seq<int>, d: seq<int>)
    requires Follows(t, order, reached, d) && forall i, j | 0 <= i < j < |order| :: order[i] != order[j]
    ensures forall i, j | 0 <= i < j < |t| :: t[i] != t[j]
  {
    forall i, j | 0 <= i < j < |t| ensures t[i] != t[j] {
      assert t[i].v == order[i + 1] && t[j].v == order[j + 1];
    }
  }

  lemma TakenOne(arcs: seq<Arc>, i: nat)
    requires i < |arcs|
    ensures multiset(Without(arcs, i)) == multiset(arcs) - multiset{arcs[i]}
  {
    assert arcs == arcs[..i] + [arcs[i]] + arcs[i + 1..];
    assert multiset(arcs) == multiset(Without(arcs, i)) + multiset{arcs[i]};
  }

  /** The cost of a list of arcs depends on no order. */
  lemma {:induction false} CostSame(a: seq<Arc>, b: seq<Arc>)
    requires multiset(a) == multiset(b)
    ensures Cost(a) == Cost(b)
    decreases |a|
  {
    if a == [] {
      assert |multiset(b)| == 0;
    } else {
      assert a[0] in multiset(b);
      var i: nat :| i < |b| && b[i] == a[0];
      CostWithout(b, i);
      TakenOne(a, 0);
      TakenOne(b, i);
      assert Without(a, 0) == a[1..];
      CostSame(a[1..], Without(b, i));
    }
  }

  lemma JoinsSame(a: seq<Arc>, b: seq<Arc>, x: int, y: int)
    requires (forall e | e in a :: e in b) && Joins(a, x, y)
    ensures Joins(b, x, y)
  {
    var i :| 0 <= i < |a| && Ends(a[i], x, y);
    assert a[i] in b;
    var j :| 0 <= j < |b| && b[j] == a[i];
    assert Ends(b[j], x, y);
  }

  /** Nor does being a spanning tree. */
  lemma SpanningSame(g: Graph, v0: int, a: seq<Arc>, b: seq<Arc>)
    requires multiset(a) == multiset(b) && SpanningTree(g, v0, a)
    ensures SpanningTree(g, v0, b)
  {
    assert |multiset(a)| == |a| && |multiset(b)| == |b|;
    forall e ensures e in a <==> e in b {
      assert e in multiset(a) <==> e in multiset(b);
    }
    forall x | 0 <= x < |g| ensures Tied(b, {v0}, x) {
      assert Tied(a, {v0}, x);
      var p :| TiePath(a, {v0}, p) && p[0] == x;
      forall i | 0 <= i < |p| - 1 ensures Joins(b, p[i], p[i + 1]) {
        JoinsSame(a, b, p[i], p[i + 1]);
      }
      assert TiePath(b, {v0}, p);
    }
    forall i | 0 <= i < |b| ensures Wired(g, b[i].u, b[i].v, b[i].dist) {
      assert b[i] in a;
    }
  }

  /** `arcs` form a spanning tree, and none is cheaper. */
  ghost predicate Minimal(g: Graph, v0: int, arcs: seq<Arc>) {
    SpanningTree(g, v0, arcs) && forall other | SpanningTree(g, v0, other) :: Cost(arcs) <= Cost(other)
  }

  /** In whatever order the vertices were added, the arrays name a minimum spanning tree. */
  lemma ArraysAreMinimal(g: Graph, order: seq<int>, reached: seq<int>, d: seq<int>)
    requires Symmetric(g) && Grown(g, order, reached, d) && |order| == |g| > 0 && forall v | 0 <= v < |g| :: v in order
    ensures |reached| == |d| == |g| && Minimal(g, order[0], Tree(order[0], reached, d))
  {
    GrownIsMinimal(g, order, reached, d);
    GrownFollows(g, order, reached, d);
    TreeMembers(order[0], reached, d, |g|);
    var t, u := TreeFrom(order, reached, d, 1), Tree(order[0], reached, d);
    hide SpanningTree, Cost, Lightest, Symmetric, NamedBelow, TreeFrom, Follows;
    assert u == TreeBelow(order[0], reached, d, |g|);
    FollowsDistinct(t, order, reached, d);
    forall a ensures a in t <==> a in u {
      FollowsMembers(t, order, reached, d, a);
    }
    hide Tree, TreeBelow, Grown;
    SameMembers(t, u);
    CostSame(t, u);
    SpanningSame(g, order[0], t, u);
  }

  // ---------- The state of the algorithm, as values ----------

  /** The vertices of the tree in the order they were added, the arrays, and the heap's contents. */
  datatype State = State(order: seq<int>, reached: seq<int>, d: seq<int>, front: map<int, int>)

  /** The start vertex was not reached along an edge. */
  ghost predicate Rooted(st: State) {
    st.order != [] && 0 <= st.order[0] < |st.reached| == |st.d| && st.reached[st.order[0]] == -1 &&
    st.d[st.order[0]] == 0
  }

  /** The tree has grown by lightest edges, and the frontier names for its vertices an edge from the tree. */
  ghost predicate Sound(g: Graph, st: State) {
    Grown(g, st.order, st.reached, st.d) && Rooted(st) &&
    (forall w :: w in st.front <==> 0 <= w < |g| && w !in st.order && st.reached[w] >= 0) &&
    (forall w | w in st.front ::
       st.front[w] == st.d[w] && st.reached[w] in st.order && Wired(g, st.reached[w], w, st.d[w]))
  }

  /** The frontier holds for `w` an edge no heavier than `dist`. */
  ghost predicate Offered(st: State, w: int, dist: int) {
    0 <= w < |st.reached| == |st.d| && st.reached[w] >= 0 && st.d[w] <= dist
  }

  /** No edge that leaves the tree is lighter than what the frontier offers; of `v` only the first `e`
      edges have been looked at. */
  ghost predicate Best(g: Graph, st: State, v: int, e: int) {
    (forall a, w, dist | a in st.order && a != v && w !in st.order && Wired(g, a, w, dist) :: Offered(st, w, dist)) &&
    (0 <= v < |g| && e <= |g[v]| ==>
       forall i | 0 <= i < e && g[v][i].vertex_no !in st.order :: Offered(st, g[v][i].vertex_no, g[v][i].dist))
  }

  /** The edge of weight `dist` from `v` to `w` is looked at. */
  ghost function Relaxed(st: State, v: int, w: int, dist: int): State
    requires 0 <= w < |st.reached| == |st.d|
  {
    if w in st.order || (st.reached[w] >= 0 && st.d[w] <= dist) then st
    else State(st.order, st.reached[w := v], st.d[w := dist], st.front[w := dist])
  }

  lemma GrownSame(g: Graph, order: seq<int>, reached: seq<int>, d: seq<int>, reached': seq<int>, d': seq<int>)
    requires Grown(g, order, reached, d) && |reached'| == |d'| == |g|
    requires forall i | 0 <= i < |order| :: reached'[order[i]] == reached[order[i]] && d'[order[i]] == d[order[i]]
    ensures Grown(g, order, reached', d')
  {
  }

  lemma RelaxSound(g: Graph, st: State, v: int, w: int, dist: int)
    requires Sound(g, st) && v in st.order && 0 <= w < |g| && Wired(g, v, w, dist) && |st.reached| == |st.d| == |g|
    ensures Sound(g, Relaxed(st, v, w, dist))
  {
    var st' := Relaxed(st, v, w, dist);
    if w !in st.order {
      GrownSame(g, st.order, st.reached, st.d, st'.reached, st'.d);
      assert v >= 0;
    }
  }

  /** The edge just looked at is one more edge for which the frontier is at least as good. */
  lemma RelaxBest(g: Graph, st: State, v: int, e: int)
    requires |st.reached| == |st.d| == |g| && IsGraph(g) && 0 <= v < |g| && 0 <= e < |g[v]| && Best(g, st, v, e)
    ensures Best(g, Relaxed(st, v, g[v][e].vertex_no, g[v][e].dist), v, e + 1)
  {
    var w, dist := g[v][e].vertex_no, g[v][e].dist;
    var st' := Relaxed(st, v, w, dist);
    assert forall x, c | Offered(st, x, c) :: Offered(st', x, c);
  }

  /** `v` joins the tree. */
  ghost function Added(st: State, v: int): State {
    State(st.order + [v], st.reached, st.d, st.front - {v})
  }

  /** The frontier vertex of least key is the end of a lightest edge out of the tree. */
  lemma LeastCrosses(g: Graph, st: State, v: int)
    requires Sound(g, st) && Best(g, st, -1, 0) && v in st.front
    requires forall x | x in st.front :: st.front[v] <= st.front[x]
    ensures |st.reached| == |st.d| == |g| && 0 <= v < |g| && Lightest(g, Range(st.order), v, st.reached[v], st.d[v])
  {
    hide Grown;
    SameSizes(g, st);
    forall a, b, c | a in Range(st.order) && b !in Range(st.order) && Wired(g, a, b, c) ensures st.d[v] <= c {
      assert a in st.order && a != -1 && b !in st.order;
      assert Offered(st, b, c);
      assert b in st.front;
    }
  }

  lemma FrontOutside(g: Graph, st: State, v: int)
    requires Sound(g, st) && v in st.front
    ensures Grown(g, st.order, st.reached, st.d) && v !in st.order && 0 <= v < |g|
  {
    hide Grown, Wired;
  }

  lemma GrownSnoc(g: Graph, order: seq<int>, reached: seq<int>, d: seq<int>, v: int)
    requires Grown(g, order, reached, d) && v !in order && 0 <= v < |g|
    requires Lightest(g, Range(order), v, reached[v], d[v])
    ensures Grown(g, order + [v], reached, d)
  {
    hide Lightest, Range;
    var order' := order + [v];
    forall i | 1 <= i < |order'| ensures Lightest(g, Range(order'[..i]), order'[i], reached[order'[i]], d[order'[i]]) {
      if i < |order| {
        assert order'[..i] == order[..i];
      } else {
        assert order'[..i] == order;
      }
    }
  }

  lemma AddGrown(g: Graph, st: State, v: int)
    requires Sound(g, st) && Best(g, st, -1, 0) && v in st.front
    requires forall x | x in st.front :: st.front[v] <= st.front[x]
    ensures Grown(g, st.order + [v], st.reached, st.d)
  {
    hide Sound, Best, Grown, Lightest;
    LeastCrosses(g, st, v);
    FrontOutside(g, st, v);
    GrownSnoc(g, st.order, st.reached, st.d, v);
  }

  /** A frontier vertex with a least key joins the tree. */
  lemma AddSound(g: Graph, st: State, v: int)
    requires Sound(g, st) && Best(g, st, -1, 0) && v in st.front
    requires forall x | x in st.front :: st.front[v] <= st.front[x]
    ensures Sound(g, Added(st, v)) && Best(g, Added(st, v), v, 0)
  {
    AddGrown(g, st, v);
    AddFront(g, st, v);
    AddBest(g, st, v);
  }

  lemma AddFront(g: Graph, st: State, v: int)
    requires Sound(g, st) && v in st.front && Grown(g, st.order + [v], st.reached, st.d)
    ensures Sound(g, Added(st, v))
  {
    hide Grown, Wired, Lightest;
    SameSizes(g, st);
    InLonger(st.order, v);
  }

  lemma SameSizes(g: Graph, st: State)
    requires Sound(g, st)
    ensures |st.reached| == |st.d| == |g|
  {
  }

  lemma InLonger(order: seq<int>, v: int)
    ensures forall x :: x in order + [v] <==> x in order || x == v
  {
  }

  lemma AddBest(g: Graph, st: State, v: int)
    requires |st.reached| == |st.d| && Best(g, st, -1, 0)
    ensures Best(g, Added(st, v), v, 0)
  {
    var st' := Added(st, v);
    forall a, w, dist | a in st'.order && a != v && w !in st'.order && Wired(g, a, w, dist)
      ensures Offered(st', w, dist)
    {
      assert a in st.order && w !in st.order;
      NonNegative(g, st, a, w, dist);
      assert Offered(st, w, dist);
    }
  }

  lemma NonNegative(g: Graph, st: State, a: int, w: int, dist: int)
    requires Wired(g, a, w, dist)
    ensures a != -1
  {
  }

  /** All edges of `v` looked at. */
  lemma BestAgain(g: Graph, st: State, v: int)
    requires 0 <= v < |g| && Best(g, st, v, |g[v]|)
    ensures Best(g, st, -1, 0)
  {
    forall a, w, dist | a in st.order && w !in st.order && Wired(g, a, w, dist) ensures Offered(st, w, dist) {
      if a == v {
        var i :| 0 <= i < |g[v]| && g[v][i] == Edge(w, dist);
        assert g[v][i].vertex_no !in st.order;
      }
    }
  }

  /** An edge out of the tree leads to the frontier. */
  lemma EdgeInside(g: Graph, st: State, a: int, w: int, dist: int)
    requires Sound(g, st) && Best(g, st, -1, 0) && a in st.order && Wired(g, a, w, dist)
    ensures w in st.order || w in st.front
  {
    if w !in st.order {
      assert a != -1;
      assert Offered(st, w, dist);
    }
  }

  /** An empty frontier means that everything reachable is in the tree. */
  lemma AllAdded(g: Graph, v0: int, st: State)
    requires Sound(g, st) && Best(g, st, -1, 0) && st.front == map[] && IsGraph(g) && v0 in st.order
    requires forall v | 0 <= v < |g| :: Reach(g, v0, v)
    ensures forall v | 0 <= v < |g| :: v in st.order
    ensures |st.order| == |g|
  {
    var s := Range(st.order);
    forall u, w | u in s && Linked(g, u, w) ensures w in s {
      var i :| 0 <= i < |g[u]| && g[u][i].vertex_no == w;
      assert g[u][i] in g[u] && Wired(g, u, w, g[u][i].dist);
      EdgeInside(g, st, u, w, g[u][i].dist);
    }
    forall v | 0 <= v < |g| ensures v in st.order {
      ReachStays(g, s, v0, v);
    }
    FullSize(st.order, |g|);
  }

  /** A list of distinct numbers below `n` with all of them in it has length `n`. */
  lemma FullSize(s: seq<int>, n: nat)
    requires forall i, j | 0 <= i < j < |s| :: s[i] != s[j]
    requires forall i | 0 <= i < |s| :: 0 <= s[i] < n
    requires forall x | 0 <= x < n :: x in s
    ensures |s| == n
  {
    Pigeonhole(s, n);
    AllBelow(n, Range(s));
    DistinctSize(s);
  }

  lemma {:induction false} AllBelow(n: nat, s: set<int>)
    requires forall x | 0 <= x < n :: x in s
    ensures n <= |s|
  {
    if n > 0 {
      AllBelow(n - 1, s - {n - 1});
    }
  }

  // ---------- The program ----------

  /** At the start vertex there is neither a loop nor a second edge to the same vertex. */
  ghost predicate SimpleAt(g: Graph, v0: int)
    requires 0 <= v0 < |g|
  {
    (forall i | 0 <= i < |g[v0]| :: g[v0][i].vertex_no != v0) &&
    (forall i, j | 0 <= i < j < |g[v0]| :: g[v0][i].vertex_no != g[v0][j].vertex_no)
  }

  /** The arrays and the heap hold the state `st`; `s` marks the tree. */
  ghost predicate Holds(g: Graph, st: State, s: array<int>, reached: array<int>, d: array<int>, front: BHeap)
    reads s, reached, d, front, front.a, front.p
  {
    s != reached && s != d && reached != d && front.p != s && front.p != reached && front.p != d &&
    s.Length == front.p.Length == |g| && front.Valid() &&
    reached[..] == st.reached && d[..] == st.d && front.Contents() == st.front && |st.d| == |st.reached| == |g| &&
    forall v | 0 <= v < |g| :: s[v] != 0 <==> v in st.order
  }

  /** Looks at the edge of weight `dist` from `v` to `w`. */
  method Relax(g: Graph, v: int, w: int, dist: int, s: array<int>, reached: array<int>, d: array<int>, front: BHeap,
               ghost st: State)
    requires Holds(g, st, s, reached, d, front) && Sound(g, st) && 0 <= w < |g| && 0 <= v
    modifies reached, d, front, front.a, front.p
    ensures Holds(g, Relaxed(st, v, w, dist), s, reached, d, front)
  {
    hide Grown, BHeap.Valid, BHeap.Contents;
    if s[w] == 0 {
      if reached[w] >= 0 {
        if dist < d[w] {
          d[w] := dist;
          front.DecreaseKey(w, dist);
          reached[w] := v;
        }
      } else {
        d[w] := dist;
        front.Insert(w, dist);
        reached[w] := v;
      }
    }
  }

  /** While the first `e` edges of the start vertex are put in, exactly their ends have been reached. */
  ghost predicate FirstEdges(g: Graph, v0: int, e: int, st: State) {
    0 <= v0 < |g| && 0 <= e <= |g[v0]| && st.order == [v0] && |st.reached| == |g| &&
    forall w | 0 <= w < |g| && st.reached[w] >= 0 :: exists i :: 0 <= i < e && g[v0][i].vertex_no == w
  }

  lemma FirstEdge(g: Graph, v0: int, e: int, st: State)
    requires IsGraph(g) && FirstEdges(g, v0, e, st) && e < |g[v0]| && SimpleAt(g, v0) && |st.d| == |g|
    ensures g[v0][e].vertex_no !in st.order && st.reached[g[v0][e].vertex_no] < 0
    ensures FirstEdges(g, v0, e + 1, Relaxed(st, v0, g[v0][e].vertex_no, g[v0][e].dist))
  {
    var st' := Relaxed(st, v0, g[v0][e].vertex_no, g[v0][e].dist);
    forall w | 0 <= w < |g| && st'.reached[w] >= 0 ensures exists i :: 0 <= i < e + 1 && g[v0][i].vertex_no == w {
      if st.reached[w] >= 0 {
        var i :| 0 <= i < e && g[v0][i].vertex_no == w;
      } else {
        assert w == g[v0][e].vertex_no;
      }
    }
  }

  lemma Begin(g: Graph, v0: int, st: State)
    requires 0 <= v0 < |g| && st.order == [v0] && st.front == map[] && |st.d| == |st.reached| == |g| && st.d[v0] == 0
    requires forall w | 0 <= w < |g| :: st.reached[w] == -1
    ensures Sound(g, st) && Best(g, st, v0, 0) && FirstEdges(g, v0, 0, st)
  {
  }

  lemma EdgeIsWired(g: Graph, v: int, i: int)
    requires IsGraph(g) && 0 <= v < |g| && 0 <= i < |g[v]|
    ensures Wired(g, v, g[v][i].vertex_no, g[v][i].dist) && 0 <= g[v][i].vertex_no < |g|
  {
  }

  /** Puts the edges of the start vertex into the frontier, without looking whether they are there. */
  method StartFrontier(g: Graph, v0: int, s: array<int>, reached: array<int>, d: array<int>, front: BHeap,
                       ghost st0: State)
      returns (ghost st: State)
    requires IsGraph(g) && 0 <= v0 < |g| && SimpleAt(g, v0)
    requires Holds(g, st0, s, reached, d, front) && Sound(g, st0) && Best(g, st0, v0, 0) && FirstEdges(g, v0, 0, st0)
    modifies reached, d, front, front.a, front.p
    ensures Holds(g, st, s, reached, d, front) && Sound(g, st) && Best(g, st, -1, 0) && st.order == [v0]
  {
    hide Grown, Sound, Best, FirstEdges, BHeap.Valid, BHeap.Contents;
    st := st0;
    var i := 0;
    while i < |g[v0]|
      invariant 0 <= i <= |g[v0]| && Holds(g, st, s, reached, d, front)
      invariant Sound(g, st) && Best(g, st, v0, i) && FirstEdges(g, v0, i, st)
    {
      var w := g[v0][i].vertex_no;
      var dist := g[v0][i].dist;
      EdgeIsWired(g, v0, i);
      FirstEdge(g, v0, i, st);
      OneVertex(g, v0, i, st);
      NotInFront(g, st, w);
      RelaxSound(g, st, v0, w, dist);
      RelaxBest(g, st, v0, i);
      d[w] := dist;
      front.Insert(w, dist);
      reached[w] := v0;
      st := Relaxed(st, v0, w, dist);
      i := i + 1;
    }
    OneVertex(g, v0, i, st);
    BestAgain(g, st, v0);
  }

  lemma OneVertex(g: Graph, v0: int, e: int, st: State)
    requires FirstEdges(g, v0, e, st)
    ensures st.order == [v0] && v0 in st.order
  {
  }

  lemma NotInFront(g: Graph, st: State, w: int)
    requires Sound(g, st) && 0 <= w < |st.reached| && st.reached[w] < 0
    ensures w !in st.front
  {
  }

  /** Looks at all edges of `v`, which has just joined the tree. */
  method ScanEdges(g: Graph, v: int, s: array<int>, reached: array<int>, d: array<int>, front: BHeap, ghost st0: State)
      returns (ghost st: State)
    requires IsGraph(g) && 0 <= v < |g| && v in st0.order
    requires Holds(g, st0, s, reached, d, front) && Sound(g, st0) && Best(g, st0, v, 0)
    modifies reached, d, front, front.a, front.p
    ensures Holds(g, st, s, reached, d, front) && Sound(g, st) && Best(g, st, -1, 0) && st.order == st0.order
  {
    hide Grown, Sound, Best, BHeap.Valid, BHeap.Contents;
    st := st0;
    var i := 0;
    while i < |g[v]|
      invariant 0 <= i <= |g[v]| && Holds(g, st, s, reached, d, front) && st.order == st0.order
      invariant Sound(g, st) && Best(g, st, v, i)
    {
      var w := g[v][i].vertex_no;
      var dist := g[v][i].dist;
      EdgeIsWired(g, v, i);
      RelaxSound(g, st, v, w, dist);
      RelaxBest(g, st, v, i);
      Relax(g, v, w, dist, s, reached, d, front, st);
      st := Relaxed(st, v, w, dist);
      i := i + 1;
    }
    BestAgain(g, st, v);
  }

  lemma InRange(g: Graph, st: State)
    requires Sound(g, st)
    ensures |st.reached| == |st.d| == |g| && |st.order| <= |g|
    ensures (forall i | 0 <= i < |st.order| :: 0 <= st.order[i] < |g|) && forall w | w in st.front :: 0 <= w < |g|
  {
    Pigeonhole(st.order, |g|);
  }

  /** Arrays, heap and the state in which only the start vertex is in the tree. */
  method SetUp(g: Graph, v0: int)
      returns (s: array<int>, reached: array<int>, d: array<int>, front: BHeap, ghost st: State)
    requires 0 <= v0 < |g|
    ensures fresh(s) && fresh(reached) && fresh(d) && fresh(front) && fresh(front.a) && fresh(front.p)
    ensures Holds(g, st, s, reached, d, front) && Sound(g, st) && Best(g, st, v0, 0) && FirstEdges(g, v0, 0, st)
  {
    hide BHeap.Valid, BHeap.Contents, Sound, Best, FirstEdges;
    var n := |g|;
    reached := new int[n];
    d := new int[n](_ => 0);
    s := new int[n](_ => 0);
    front := new BHeap(n);
    for i := 0 to n
      modifies reached
      invariant forall j | 0 <= j < i :: reached[j] == -1
    {
      reached[i] := -1;
    }
    s[v0] := 1;
    d[v0] := 0;
    st := State([v0], reached[..], d[..], map[]);
    Begin(g, v0, st);
  }

  /** Adds frontier vertices, cheapest first, until none is left. */
  method GrowAll(g: Graph, v0: int, s: array<int>, reached: array<int>, d: array<int>, front: BHeap, ghost st0: State)
      returns (ghost st: State)
    requires IsGraph(g) && Holds(g, st0, s, reached, d, front) && Sound(g, st0) && Best(g, st0, -1, 0) &&
             st0.order == [v0]
    modifies s, reached, d, front, front.a, front.p
    ensures Holds(g, st, s, reached, d, front) && Sound(g, st) && Best(g, st, -1, 0) && st.front == map[]
    ensures st.order != [] && st.order[0] == v0
  {
    hide Grown, Sound, Best, BHeap.Valid, BHeap.Contents;
    st := st0;
    InRange(g, st);
    var count := front.Count();
    while count > 0
      invariant Holds(g, st, s, reached, d, front) && Sound(g, st) && Best(g, st, -1, 0) && |st.order| <= |g|
      invariant st.order != [] && st.order[0] == v0
      invariant count == front.n && (count == 0 <==> st.front == map[]) && 0 <= count
      decreases |g| - |st.order|
    {
      var v := front.DeleteMin();
      InRange(g, st);
      AddSound(g, st, v);
      s[v] := 1;
      st := Added(st, v);
      InRange(g, st);
      st := ScanEdges(g, v, s, reached, d, front, st);
      count := front.Count();
    }
  }

  /** `mst_prim`: the edges (reached[w], w) of weight d[w], for all w but `v0`, form a spanning tree, and no
      spanning tree is cheaper. */
  method Prim(g: Graph, v0: int) returns (reached: array<int>, d: array<int>)
    requires IsGraph(g) && Symmetric(g) && 0 <= v0 < |g| && SimpleAt(g, v0)
    requires forall v | 0 <= v < |g| :: Reach(g, v0, v)
    ensures reached.Length == d.Length == |g| && reached[v0] == -1 && d[v0] == 0
    ensures Minimal(g, v0, Tree(v0, reached[..], d[..]))
  {
    hide Grown, Best, FirstEdges, BHeap.Valid, BHeap.Contents, Reach, Symmetric, Minimal, Tree;
    var s, front; ghost var st;
    s, reached, d, front, st := SetUp(g, v0);
    st := StartFrontier(g, v0, s, reached, d, front, st);
    st := GrowAll(g, v0, s, reached, d, front, st);
    InRange(g, st);
    AllAdded(g, v0, st);
    ArraysAreMinimal(g, st.order, st.reached, st.d);
  }
}

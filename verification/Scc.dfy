/** Tarjan's strongly connected components (italos/lib/sc.c). */
module StrongComponents {
  import opened Graphs
  import opened Sequences

  const UNDEFINED: int := -1

  // ---------- The state, as values ----------

  /** Visit numbers, the stack, the vertices written to the result, and the slices of the result. */
  datatype State = State(num: seq<int>, stk: seq<int>, out: seq<int>, s: seq<int>, f: seq<int>)

  ghost predicate Visited(st: State, v: int) {
    0 <= v < |st.num| && st.num[v] != UNDEFINED
  }

  /** Every vertex visited is, once, either on the stack or written. */
  ghost predicate Placed(st: State, n: nat) {
    |st.num| == n &&
    (forall i | 0 <= i < |st.stk| :: Visited(st, st.stk[i])) &&
    (forall i | 0 <= i < |st.out| :: Visited(st, st.out[i])) &&
    (forall i, j | 0 <= i < j < |st.out| :: st.out[i] != st.out[j]) &&
    (forall i, j | 0 <= i < |st.stk| && 0 <= j < |st.out| :: st.stk[i] != st.out[j]) &&
    (forall v | Visited(st, v) :: v in st.stk || v in st.out) &&
    (forall v | Visited(st, v) :: 0 <= st.num[v] < |st.stk| + |st.out|)
  }

  /** The stack lists its vertices in the order they were visited, each reaching all that follow. */
  ghost predicate Stacked(g: Graph, st: State)
    requires Placed(st, |g|)
  {
    (forall i, j | 0 <= i < j < |st.stk| :: st.num[st.stk[i]] < st.num[st.stk[j]]) &&
    (forall i, j | 0 <= i <= j < |st.stk| :: Reach(g, st.stk[i], st.stk[j]))
  }

  /** `y` reaches a vertex of `gray` that was visited no later. */
  ghost predicate Anchored(g: Graph, gray: set<int>, st: State, y: int)
    requires |st.num| == |g|
  {
    exists a :: a in gray && Visited(st, a) && Visited(st, y) && st.num[a] <= st.num[y] && Reach(g, y, a)
  }

  /** All edges out of the vertices whose search is over lead to visited vertices. */
  ghost predicate Explored(g: Graph, gray: set<int>, st: State) {
    forall u, w | Visited(st, u) && u !in gray && Linked(g, u, w) :: Visited(st, w)
  }

  /** The slices follow each other and cover what is written. */
  ghost predicate Sliced(out: seq<int>, s: seq<int>, f: seq<int>) {
    |s| == |f| <= |out| &&
    (|s| == 0 ==> |out| == 0) &&
    (|s| > 0 ==> s[0] == 0 && f[|f| - 1] == |out| - 1) &&
    (forall i | 0 <= i < |s| :: 0 <= s[i] <= f[i] < |out|) &&
    (forall i | 0 < i < |s| :: s[i] == f[i - 1] + 1)
  }

  /** Within a slice all vertices reach each other, and edges lead to the same or an earlier slice. */
  ghost predicate Components(g: Graph, out: seq<int>, s: seq<int>, f: seq<int>)
    requires Sliced(out, s, f)
  {
    (forall i, j, k | 0 <= i < |s| && s[i] <= j <= f[i] && s[i] <= k <= f[i] :: Reach(g, out[j], out[k])) &&
    (forall i, j, w | 0 <= i < |s| && s[i] <= j <= f[i] && Linked(g, out[j], w) :: w in out[..f[i] + 1])
  }

  /** What holds between any two steps; `gray` are the vertices whose search is still going on. */
  ghost predicate Inv(g: Graph, gray: set<int>, st: State) {
    IsGraph(g) && Placed(st, |g|) && Stacked(g, st) && Explored(g, gray, st) &&
    Sliced(st.out, st.s, st.f) && Components(g, st.out, st.s, st.f) &&
    (forall a | a in gray :: a in st.stk) &&
    (forall y | y in st.stk :: Anchored(g, gray, st, y))
  }

  // ---------- Visiting a vertex ----------

  ghost function Pushed(st: State, v: int): State
    requires 0 <= v < |st.num|
  {
    st.(num := st.num[v := |st.stk| + |st.out|], stk := st.stk + [v])
  }

  lemma PushPlaced(g: Graph, st: State, v: int)
    requires Placed(st, |g|) && 0 <= v < |g| && !Visited(st, v)
    ensures Placed(Pushed(st, v), |g|)
  {
    var st' := Pushed(st, v);
    assert st'.stk[|st.stk|] == v;
    forall u | Visited(st', u) ensures u in st'.stk || u in st'.out {
      if u != v { assert Visited(st, u); }
    }
  }

  lemma PushStacked(g: Graph, gray: set<int>, st: State, v: int)
    requires Placed(st, |g|) && Stacked(g, st) && 0 <= v < |g| && !Visited(st, v)
    requires Placed(Pushed(st, v), |g|)
    requires forall a | a in gray :: Reach(g, a, v)
    requires forall y | y in st.stk :: Anchored(g, gray, st, y)
    ensures Stacked(g, Pushed(st, v))
  {
    hide Reach;
    var st' := Pushed(st, v);
    forall i, j | 0 <= i <= j < |st'.stk| ensures Reach(g, st'.stk[i], st'.stk[j]) {
      if i == |st.stk| {
        ReachSelf(g, v);
      } else if j == |st.stk| {
        var y := st.stk[i];
        assert Anchored(g, gray, st, y);
        var a :| a in gray && Reach(g, y, a);
        ReachTrans(g, y, a, v);
      }
    }
  }

  lemma PushAnchored(g: Graph, gray: set<int>, st: State, v: int, y: int)
    requires |st.num| == |g| && 0 <= v < |g| && !Visited(st, v) && (y != v ==> Anchored(g, gray, st, y))
    ensures Anchored(g, gray + {v}, Pushed(st, v), y)
  {
    var st' := Pushed(st, v);
    if y == v {
      ReachSelf(g, v);
      assert v in gray + {v} && Visited(st', v);
    } else {
      var a :| a in gray && Visited(st, a) && Visited(st, y) && st.num[a] <= st.num[y] && Reach(g, y, a);
      assert a in gray + {v} && Visited(st', a);
    }
  }

  /** The new vertex goes on the stack and its search starts. */
  lemma PushKeeps(g: Graph, gray: set<int>, st: State, v: int)
    requires Inv(g, gray, st) && 0 <= v < |g| && !Visited(st, v) && forall a | a in gray :: Reach(g, a, v)
    ensures Inv(g, gray + {v}, Pushed(st, v))
  {
    hide Reach, Anchored, Stacked, Placed, Components;
    NumSize(st, |g|);
    var st' := Pushed(st, v);
    PushPlaced(g, st, v);
    PushStacked(g, gray, st, v);
    forall y | y in st'.stk ensures Anchored(g, gray + {v}, st', y) {
      PushAnchored(g, gray, st, v, y);
    }
    assert st'.stk[|st.stk|] == v;
  }

  lemma NumSize(st: State, n: nat)
    requires Placed(st, n)
    ensures |st.num| == n
  {
  }

  // ---------- Searching the edges of a vertex ----------

  /** What has been visited or written stays so. */
  ghost predicate Extends(st0: State, st: State) {
    |st0.num| == |st.num| && (forall u | Visited(st0, u) :: st.num[u] == st0.num[u]) &&
    (forall u | Visited(st, u) && !Visited(st0, u) :: |st0.stk| + |st0.out| <= st.num[u]) &&
    st0.out <= st.out && st0.s <= st.s && st0.f <= st.f && |st0.stk| + |st0.out| <= |st.stk| + |st.out| &&
    |st0.stk| <= |st.stk| && st.stk[..|st0.stk|] == st0.stk
  }

  /** `low` is the visit number of a vertex on the stack that `v` reaches. */
  ghost predicate LowReached(g: Graph, st: State, v: int, low: int) {
    exists i :: 0 <= i < |st.stk| && Visited(st, st.stk[i]) && st.num[st.stk[i]] == low && Reach(g, v, st.stk[i])
  }

  /** Edges from the stack from position `k` on to the first `m` entries lead to numbers of at least `low`. */
  ghost predicate LowBounds(g: Graph, st: State, k: int, m: int, low: int) {
    forall i, j | 0 <= k <= i < |st.stk| && 0 <= j < m <= |st.stk| && Linked(g, st.stk[i], st.stk[j]) ::
      Visited(st, st.stk[j]) && low <= st.num[st.stk[j]]
  }

  /** The search of `v`, begun in state `st0`, has gone through the first `e` edges. */
  ghost predicate Scan(g: Graph, st0: State, st: State, v: int, low: int, e: int) {
    Extends(st0, st) && !Visited(st0, v) && Visited(st, v) && |st0.stk| < |st.stk| && st.stk[|st0.stk|] == v &&
    low <= st.num[v] && LowReached(g, st, v, low) && LowBounds(g, st, |st0.stk| + 1, |st0.stk|, low) &&
    0 <= v < |g| && 0 <= e <= |g[v]| &&
    (forall i | 0 <= i < e :: Visited(st, g[v][i].vertex_no)) &&
    (forall i | 0 <= i < e && g[v][i].vertex_no in st0.stk :: low <= st.num[g[v][i].vertex_no])
  }

  /** The search of `v` is over; either its component has been written or the vertices it left on the
      stack wait for an earlier one. */
  ghost predicate Done(g: Graph, st0: State, st: State, v: int, low: int) {
    Extends(st0, st) && Visited(st, v) && low <= st.num[v] && LowBounds(g, st, |st0.stk|, |st0.stk|, low) &&
    if |st.stk| == |st0.stk| then low == st.num[v] else LowReached(g, st, v, low)
  }

  lemma ScanBegins(g: Graph, st: State, v: int)
    requires IsGraph(g) && |st.num| == |g| && 0 <= v < |g| && !Visited(st, v)
    ensures Scan(g, st, Pushed(st, v), v, |st.stk| + |st.out|, 0)
  {
    var st' := Pushed(st, v);
    ReachSelf(g, v);
    assert st'.stk[|st.stk|] == v;
    assert LowReached(g, st', v, |st.stk| + |st.out|);
    assert st'.stk[..|st.stk|] == st.stk;
  }

  lemma LowLater(g: Graph, st: State, st': State, v: int, low: int)
    requires LowReached(g, st, v, low) && Extends(st, st')
    ensures LowReached(g, st', v, low)
  {
    var i :| 0 <= i < |st.stk| && Visited(st, st.stk[i]) && st.num[st.stk[i]] == low && Reach(g, v, st.stk[i]);
    assert st'.stk[..|st.stk|][i] == st.stk[i];
  }

  lemma ExtendsOn(a: State, b: State, c: State)
    requires Extends(a, b) && Extends(b, c)
    ensures Extends(a, c)
  {
    assert c.stk[..|b.stk|][..|a.stk|] == c.stk[..|a.stk|];
    forall u | Visited(c, u) && !Visited(a, u) ensures |a.stk| + |a.out| <= c.num[u] {
      if Visited(b, u) {}
    }
  }

  lemma StackKept(st: State, st': State, i: int)
    requires Extends(st, st') && 0 <= i < |st.stk|
    ensures st'.stk[i] == st.stk[i] && (Visited(st, st.stk[i]) ==> st'.num[st.stk[i]] == st.num[st.stk[i]])
  {
    assert st'.stk[..|st.stk|][i] == st.stk[i];
  }

  lemma LowReachedVia(g: Graph, st: State, v: int, w: int, low: int)
    requires LowReached(g, st, w, low) && Linked(g, v, w)
    ensures LowReached(g, st, v, low)
  {
    var i :| 0 <= i < |st.stk| && Visited(st, st.stk[i]) && st.num[st.stk[i]] == low && Reach(g, w, st.stk[i]);
    ReachLink(g, v, w);
    ReachTrans(g, v, w, st.stk[i]);
  }

  /** What the search of `w` has left on the stack keeps the bound, if that is lowered to `low_w`. */
  lemma BoundsJoin(g: Graph, st: State, st': State, k: int, m: int, low: int, low_w: int)
    requires Extends(st, st') && 0 <= m <= k <= |st.stk|
    requires LowBounds(g, st, k, m, low) && LowBounds(g, st', |st.stk|, |st.stk|, low_w)
    ensures LowBounds(g, st', k, m, if low_w < low then low_w else low)
  {
    forall i, j | k <= i < |st'.stk| && 0 <= j < m && Linked(g, st'.stk[i], st'.stk[j])
      ensures Visited(st', st'.stk[j]) && (if low_w < low then low_w else low) <= st'.num[st'.stk[j]]
    {
      StackKept(st, st', j);
      if i < |st.stk| {
        StackKept(st, st', i);
        assert Linked(g, st.stk[i], st.stk[j]);
      } else {
        assert Linked(g, st'.stk[i], st'.stk[j]);
      }
    }
  }

  /** An edge to an unvisited vertex `w`, after the search of `w`. */
  lemma ScanVisit(g: Graph, st0: State, st: State, st': State, v: int, low: int, e: int, w: int, low_w: int)
    requires Scan(g, st0, st, v, low, e) && e < |g[v]| && w == g[v][e].vertex_no && !Visited(st, w)
    requires Done(g, st, st', w, low_w) && Placed(st, |g|)
    ensures Scan(g, st0, st', v, if low_w < low then low_w else low, e + 1)
  {
    var low' := if low_w < low then low_w else low;
    ExtendsOn(st0, st, st');
    StackKept(st, st', |st0.stk|);
    BoundsJoin(g, st, st', |st0.stk| + 1, |st0.stk|, low, low_w);
    assert Linked(g, v, w);
    if low_w < low {
      assert st'.num[w] > st.num[v];
      LowReachedVia(g, st', v, w, low_w);
    } else {
      LowLater(g, st, st', v, low);
    }
    OldOnStack(g, st0, st, w);
    hide LowReached, LowBounds, Placed, Linked;
    forall i | 0 <= i < e + 1 && g[v][i].vertex_no in st0.stk ensures low' <= st'.num[g[v][i].vertex_no] {
    }
  }

  lemma OldOnStack(g: Graph, st0: State, st: State, w: int)
    requires Extends(st0, st) && Placed(st, |g|)
    ensures w in st0.stk ==> Visited(st, w)
  {
    if w in st0.stk {
      var i :| 0 <= i < |st0.stk| && st0.stk[i] == w;
      assert st.stk[..|st0.stk|][i] == w;
    }
  }

  lemma BoundsLower(g: Graph, st: State, k: int, m: int, low: int, low': int)
    requires LowBounds(g, st, k, m, low) && low' <= low
    ensures LowBounds(g, st, k, m, low')
  {
  }

  lemma SeenReached(g: Graph, st: State, v: int, w: int)
    requires w in st.stk && Visited(st, w) && Linked(g, v, w)
    ensures LowReached(g, st, v, st.num[w])
  {
    var i :| 0 <= i < |st.stk| && st.stk[i] == w;
    ReachLink(g, v, w);
  }

  /** On the stack, earlier entries have smaller visit numbers. */
  lemma EarlierIsLess(g: Graph, st0: State, st: State, w: int)
    requires Placed(st, |g|) && Stacked(g, st) && Extends(st0, st) && |st0.stk| < |st.stk| && w in st0.stk
    ensures w in st.stk && st.num[w] < st.num[st.stk[|st0.stk|]]
  {
    var k := |st0.stk|;
    var i :| 0 <= i < k && st0.stk[i] == w;
    assert st.stk[..k][i] == w;
    assert st.stk[i] == w;
  }

  /** An edge to a vertex `w` visited before. */
  lemma ScanSeen(g: Graph, st0: State, st: State, v: int, low: int, e: int, w: int, low': int)
    requires Scan(g, st0, st, v, low, e) && e < |g[v]| && w == g[v][e].vertex_no && Visited(st, w)
    requires Placed(st, |g|) && Stacked(g, st)
    requires low' == if st.num[w] < st.num[v] && w in st.stk && st.num[w] < low then st.num[w] else low
    ensures Scan(g, st0, st, v, low', e + 1)
  {
    assert Linked(g, v, w);
    if low' != low { SeenReached(g, st, v, w); }
    BoundsLower(g, st, |st0.stk| + 1, |st0.stk|, low, low');
    if w in st0.stk { EarlierIsLess(g, st0, st, w); }
    hide LowReached, LowBounds, Placed, Stacked, Linked, Extends;
  }

  // ---------- The search of a vertex ends ----------

  /** All edges of `v` have been gone through. */
  ghost predicate ScanAll(g: Graph, st0: State, st: State, v: int, low: int) {
    0 <= v < |g| && Scan(g, st0, st, v, low, |g[v]|)
  }

  /** With all its edges gone through, `v` itself may leave `gray`. */
  lemma ExploredToo(g: Graph, gray: set<int>, st0: State, st: State, v: int, low: int)
    requires ScanAll(g, st0, st, v, low) && Explored(g, gray + {v}, st)
    ensures Explored(g, gray, st)
  {
    forall u, w | Visited(st, u) && u !in gray && Linked(g, u, w) ensures Visited(st, w) {
      if u == v {
        var i :| 0 <= i < |g[v]| && g[v][i].vertex_no == w;
      } else {
        assert u !in gray + {v};
      }
    }
  }

  /** If `v` reaches an earlier vertex of the stack, every vertex has an anchor other than `v`. */
  lemma AnchoredEarlier(g: Graph, gray: set<int>, st: State, v: int, low: int, y: int)
    requires |st.num| == |g| && Visited(st, v) && low < st.num[v] && LowReached(g, st, v, low)
    requires forall z | z in st.stk :: Anchored(g, gray + {v}, st, z)
    requires Anchored(g, gray + {v}, st, y)
    ensures Anchored(g, gray, st, y)
  {
    var a :| a in gray + {v} && Visited(st, a) && Visited(st, y) && st.num[a] <= st.num[y] && Reach(g, y, a);
    if a == v {
      var i :| 0 <= i < |st.stk| && Visited(st, st.stk[i]) && st.num[st.stk[i]] == low && Reach(g, v, st.stk[i]);
      var z := st.stk[i];
      assert z in st.stk;
      assert Anchored(g, gray + {v}, st, z);
      var b :| b in gray + {v} && Visited(st, b) && st.num[b] <= st.num[z] && Reach(g, z, b);
      ReachTrans(g, y, v, z);
      ReachTrans(g, y, z, b);
      assert b in gray;
    } else {
      assert a in gray;
    }
  }

  lemma AllAnchoredEarlier(g: Graph, gray: set<int>, st: State, v: int, low: int)
    requires |st.num| == |g| && Visited(st, v) && low < st.num[v] && LowReached(g, st, v, low)
    requires forall z | z in st.stk :: Anchored(g, gray + {v}, st, z)
    ensures forall y | y in st.stk :: Anchored(g, gray, st, y)
  {
    forall y | y in st.stk ensures Anchored(g, gray, st, y) {
      AnchoredEarlier(g, gray, st, v, low, y);
    }
  }

  lemma BoundsToo(g: Graph, st0: State, st: State, v: int, low: int)
    requires ScanAll(g, st0, st, v, low) && Placed(st, |g|)
    ensures LowBounds(g, st, |st0.stk|, |st0.stk|, low)
  {
    var k := |st0.stk|;
    forall i, j | k <= i < |st.stk| && 0 <= j < k && Linked(g, st.stk[i], st.stk[j])
      ensures Visited(st, st.stk[j]) && low <= st.num[st.stk[j]]
    {
      if i == k {
        var e :| 0 <= e < |g[v]| && g[v][e].vertex_no == st.stk[j];
        assert st.stk[..k][j] == st0.stk[j];
      }
    }
  }

  /** The component of `v` waits for an earlier vertex. */
  lemma FinishKeep(g: Graph, gray: set<int>, st0: State, st: State, v: int, low: int)
    requires Inv(g, gray + {v}, st) && ScanAll(g, st0, st, v, low) && low < st.num[v]
    ensures Inv(g, gray, st) && Done(g, st0, st, v, low)
  {
    hide Explored, LowBounds, LowReached, Stacked, Components, Anchored, Placed, Sliced, Extends, Scan, ScanAll,
         IsGraph;
    ScanFacts(g, st0, st, v, low);
    NumSize(st, |g|);
    ExploredToo(g, gray, st0, st, v, low);
    BoundsToo(g, st0, st, v, low);
    AllAnchoredEarlier(g, gray, st, v, low);
    forall a | a in gray ensures a in st.stk {
      assert a in gray + {v};
    }
  }

  lemma ScanFacts(g: Graph, st0: State, st: State, v: int, low: int)
    requires ScanAll(g, st0, st, v, low)
    ensures Extends(st0, st) && Visited(st, v) && low <= st.num[v] && |st0.stk| < |st.stk| && st.stk[|st0.stk|] == v
    ensures LowReached(g, st, v, low)
  {
  }

  ghost function Reversed(s: seq<int>): seq<int> {
    seq(|s|, i requires 0 <= i < |s| => s[|s| - 1 - i])
  }

  /** The stack from position `k` on is written, top first, as a slice of its own. */
  ghost function Popped(st: State, k: nat): State
    requires k < |st.stk|
  {
    State(st.num, st.stk[..k], st.out + Reversed(st.stk[k..]), st.s + [|st.out|], st.f + [|st.out| + |st.stk| - k - 1])
  }

  /** The slice a position lies in. */
  lemma {:induction false} SliceAt(out: seq<int>, s: seq<int>, f: seq<int>, j: nat, m: nat) returns (i: nat)
    requires Sliced(out, s, f) && j < |out| && m < |s| && j <= f[m]
    ensures i <= m && s[i] <= j <= f[i]
  {
    if s[m] <= j {
      i := m;
    } else {
      i := SliceAt(out, s, f, j, m - 1);
    }
  }

  lemma OutClosed(g: Graph, out: seq<int>, s: seq<int>, f: seq<int>, u: int, w: int)
    requires Sliced(out, s, f) && Components(g, out, s, f) && u in out && Linked(g, u, w)
    ensures w in out
  {
    var j: nat :| j < |out| && out[j] == u;
    var i := SliceAt(out, s, f, j, |s| - 1);
    assert w in out[..f[i] + 1];
  }

  /** `c` is the set of vertices from position `k` of the stack on. */
  ghost predicate IsTop(st: State, k: nat, c: set<int>) {
    k < |st.stk| && forall y :: y in c <==> exists i :: k <= i < |st.stk| && st.stk[i] == y
  }

  ghost predicate IsRange(s: seq<int>, c: set<int>) {
    forall y :: y in c <==> y in s
  }

  /** What is on the stack beyond `st0` was not there before. */
  lemma TopIsNew(g: Graph, st0: State, st: State, i: int)
    requires Placed(st, |g|) && Stacked(g, st) && Extends(st0, st) && |st0.stk| <= i < |st.stk|
    ensures st.stk[i] !in st0.stk
  {
    var k := |st0.stk|;
    forall j | 0 <= j < k ensures st0.stk[j] != st.stk[i] {
      assert st.stk[..k][j] == st.stk[j];
      assert st.num[st.stk[j]] < st.num[st.stk[i]];
    }
  }

  lemma OrderedAt(g: Graph, st: State, j: int, k: int)
    requires Placed(st, |g|) && Stacked(g, st) && 0 <= j < |st.stk| && 0 <= k < |st.stk|
    ensures Visited(st, st.stk[j]) && Visited(st, st.stk[k]) && (j < k ==> st.num[st.stk[j]] < st.num[st.stk[k]])
  {
  }

  lemma BoundAt(g: Graph, st: State, k: int, low: int, i: int, j: int)
    requires LowBounds(g, st, k, k, low) && 0 <= k <= i < |st.stk| && 0 <= j < |st.stk| &&
             Linked(g, st.stk[i], st.stk[j])
    requires Visited(st, st.stk[j])
    ensures j < k ==> low <= st.num[st.stk[j]]
  {
  }

  /** An edge from the top of the stack stays there or leads to what is written. */
  lemma TopEdge(g: Graph, gray: set<int>, st0: State, st: State, v: int, low: int, i: int, w: int)
    requires Placed(st, |g|) && Stacked(g, st) && Explored(g, gray, st) && Extends(st0, st)
    requires forall a | a in gray :: a in st0.stk
    requires LowBounds(g, st, |st0.stk|, |st0.stk|, low) && |st0.stk| < |st.stk| && st.stk[|st0.stk|] == v
    requires low == st.num[v] && |st0.stk| <= i < |st.stk| && Linked(g, st.stk[i], w)
    ensures w in st.out || exists j :: |st0.stk| <= j < |st.stk| && st.stk[j] == w
  {
    var k := |st0.stk|;
    TopIsNew(g, st0, st, i);
    assert Visited(st, w);
    if w in st.stk {
      var j :| 0 <= j < |st.stk| && st.stk[j] == w;
      hide Stacked, LowBounds, Placed;
      OrderedAt(g, st, j, k);
      BoundAt(g, st, k, low, i, j);
    }
  }

  /** No edge leaves the top of the stack but to what is written. */
  lemma TopClosed(g: Graph, gray: set<int>, st0: State, st: State, v: int, low: int, c: set<int>, d: set<int>)
    requires Inv(g, gray, st0) && Inv(g, gray + {v}, st) && ScanAll(g, st0, st, v, low) && low == st.num[v]
    requires IsTop(st, |st0.stk|, c) && IsRange(st.out, d)
    ensures Closed(g, c + d)
  {
    BoundsToo(g, st0, st, v, low);
    ExploredToo(g, gray, st0, st, v, low);
    var k := |st0.stk|;
    assert Extends(st0, st) && k < |st.stk| && st.stk[k] == v;
    hide Components, Anchored, LowReached, Placed, Stacked, Explored, LowBounds, Extends, Scan, Sliced;
    forall u, w | u in c + d && Linked(g, u, w) ensures w in c + d {
      if u in d {
        OutClosed(g, st.out, st.s, st.f, u, w);
      } else {
        var i :| k <= i < |st.stk| && st.stk[i] == u;
        TopEdge(g, gray, st0, st, v, low, i, w);
      }
    }
  }

  /** From the top of the stack every vertex reaches `v`. */
  lemma TopReaches(g: Graph, gray: set<int>, st0: State, st: State, v: int, c: set<int>, d: set<int>, i: int)
    requires Placed(st, |g|) && Stacked(g, st) && Extends(st0, st) && |st0.stk| <= i < |st.stk|
    requires (forall a | a in gray :: a in st0.stk) && (forall a | a in gray + {v} :: a in st.stk)
    requires Anchored(g, gray + {v}, st, st.stk[i])
    requires IsTop(st, |st0.stk|, c) && IsRange(st.out, d) && Closed(g, c + d)
    ensures Reach(g, st.stk[i], v)
  {
    hide Reach, Closed, Stacked;
    var y := st.stk[i];
    var a :| a in gray + {v} && Visited(st, a) && Reach(g, y, a);
    ReachStays(g, c + d, y, a);
    NotWritten(g, st, a);
    assert a in c;
    hide Placed;
    var j :| |st0.stk| <= j < |st.stk| && st.stk[j] == a;
    TopIsNew(g, st0, st, j);
  }

  lemma NotWritten(g: Graph, st: State, a: int)
    requires Placed(st, |g|) && a in st.stk
    ensures a !in st.out
  {
  }

  lemma ReversedRange(s: seq<int>)
    ensures |Reversed(s)| == |s| && forall y :: y in s <==> y in Reversed(s)
    ensures forall i | 0 <= i < |s| :: Reversed(s)[i] == s[|s| - 1 - i]
  {
    forall y | y in s ensures y in Reversed(s) {
      var i :| 0 <= i < |s| && s[i] == y;
      assert Reversed(s)[|s| - 1 - i] == y;
    }
  }

  lemma PoppedPlaced(g: Graph, st: State, k: nat)
    requires Placed(st, |g|) && Stacked(g, st) && k < |st.stk|
    ensures Placed(Popped(st, k), |g|) && Stacked(g, Popped(st, k))
  {
    var st', top := Popped(st, k), st.stk[k..];
    ReversedRange(top);
    forall u | Visited(st', u) ensures u in st'.stk || u in st'.out {
      assert Visited(st, u);
      if u in st.stk {
        var i :| 0 <= i < |st.stk| && st.stk[i] == u;
        if i < k { assert st'.stk[i] == u; } else { assert top[i - k] == u; }
      }
    }
    OutApart(g, st, k);
  }

  /** What is written is written once, and no longer on the stack. */
  lemma OutApart(g: Graph, st: State, k: nat)
    requires Placed(st, |g|) && Stacked(g, st) && k < |st.stk|
    ensures var st' := Popped(st, k);
            (forall i, j | 0 <= i < j < |st'.out| :: st'.out[i] != st'.out[j]) &&
            (forall i, j | 0 <= i < |st'.stk| && 0 <= j < |st'.out| :: st'.stk[i] != st'.out[j]) &&
            (forall i | 0 <= i < |st'.out| :: Visited(st, st'.out[i]))
  {
    hide Reach;
    var st', n := Popped(st, k), |st.out|;
    var m := |st.stk|;
    assert forall i | n <= i < |st'.out| :: st'.out[i] == st.stk[m - 1 - (i - n)];
    forall i, j | 0 <= i < j < |st'.out| ensures st'.out[i] != st'.out[j] {
      if i >= n { OrderedAt(g, st, m - 1 - (j - n), m - 1 - (i - n)); }
    }
    forall i, j | 0 <= i < |st'.stk| && 0 <= j < |st'.out| ensures st'.stk[i] != st'.out[j] {
      if j >= n { OrderedAt(g, st, i, m - 1 - (j - n)); }
    }
  }

  lemma PoppedSliced(st: State, k: nat)
    requires Sliced(st.out, st.s, st.f) && k < |st.stk|
    ensures var st' := Popped(st, k); Sliced(st'.out, st'.s, st'.f)
  {
  }

  lemma PoppedAt(st: State, k: nat, x: int)
    requires k < |st.stk| && |st.out| <= x < |Popped(st, k).out|
    ensures |Popped(st, k).out| == |st.out| + |st.stk| - k
    ensures k <= |st.stk| - 1 - (x - |st.out|) < |st.stk|
    ensures Popped(st, k).out[x] == st.stk[|st.stk| - 1 - (x - |st.out|)]
  {
    ReversedRange(st.stk[k..]);
  }

  lemma PoppedMutual(g: Graph, st: State, k: nat, i: int, x: int, y: int)
    requires Placed(st, |g|) && Stacked(g, st) && Sliced(st.out, st.s, st.f) && Components(g, st.out, st.s, st.f) &&
             k < |st.stk|
    requires forall i | k <= i < |st.stk| :: Reach(g, st.stk[i], st.stk[k])
    requires var st' := Popped(st, k);
             0 <= i < |st'.s| && 0 <= st'.s[i] <= x <= st'.f[i] < |st'.out| && st'.s[i] <= y <= st'.f[i]
    ensures Reach(g, Popped(st, k).out[x], Popped(st, k).out[y])
  {
    var st', n := Popped(st, k), |st.out|;
    hide Reach, Placed, Reversed;
    if i < |st.s| {
      SliceBounds(st.out, st.s, st.f, i);
      assert Reach(g, st.out[x], st.out[y]);
    } else {
      PoppedAt(st, k, x);
      PoppedAt(st, k, y);
      var a, b := |st.stk| - 1 - (x - n), |st.stk| - 1 - (y - n);
      hide Components, Sliced, Popped;
      assert Reach(g, st.stk[k], st.stk[b]);
      ReachTrans(g, st.stk[a], st.stk[k], st.stk[b]);
    }
  }

  lemma PoppedEdge(g: Graph, st: State, k: nat, c: set<int>, d: set<int>, i: int, x: int, w: int)
    requires Sliced(st.out, st.s, st.f) && Components(g, st.out, st.s, st.f)
    requires IsTop(st, k, c) && IsRange(st.out, d) && Closed(g, c + d)
    requires var st' := Popped(st, k);
             0 <= i < |st'.s| && 0 <= st'.s[i] <= x <= st'.f[i] < |st'.out| && Linked(g, st'.out[x], w)
    ensures w in Popped(st, k).out[..Popped(st, k).f[i] + 1]
  {
    var st', n := Popped(st, k), |st.out|;
    hide Reach, Reversed;
    if i < |st.s| {
      hide Closed, IsTop, IsRange;
      SliceBounds(st.out, st.s, st.f, i);
      assert w in st.out[..st.f[i] + 1];
      assert st'.out[..st'.f[i] + 1] == st.out[..st.f[i] + 1];
    } else {
      hide Components, Sliced;
      PoppedAt(st, k, x);
      var a := |st.stk| - 1 - (x - n);
      assert st.stk[a] in c;
      assert w in c + d;
      InPopped(st, k, c, d, w);
      assert st'.out[..st'.f[i] + 1] == st'.out;
    }
  }

  /** The popped vertices form one more component. */
  lemma PoppedComponents(g: Graph, st: State, k: nat, c: set<int>, d: set<int>)
    requires Placed(st, |g|) && Stacked(g, st) && Sliced(st.out, st.s, st.f) && Components(g, st.out, st.s, st.f)
    requires IsTop(st, k, c) && IsRange(st.out, d) && Closed(g, c + d)
    requires forall i | k <= i < |st.stk| :: Reach(g, st.stk[i], st.stk[k])
    ensures var st' := Popped(st, k); Sliced(st'.out, st'.s, st'.f) && Components(g, st'.out, st'.s, st'.f)
  {
    PoppedSliced(st, k);
    var st' := Popped(st, k);
    hide Reach, Sliced, Popped, Placed, Stacked, Closed, IsTop, IsRange;
    forall i, x, y | 0 <= i < |st'.s| && st'.s[i] <= x <= st'.f[i] && st'.s[i] <= y <= st'.f[i]
      ensures Reach(g, st'.out[x], st'.out[y])
    {
      SliceBounds(st'.out, st'.s, st'.f, i);
      PoppedMutual(g, st, k, i, x, y);
    }
    forall i, x, w | 0 <= i < |st'.s| && st'.s[i] <= x <= st'.f[i] && Linked(g, st'.out[x], w)
      ensures w in st'.out[..st'.f[i] + 1]
    {
      SliceBounds(st'.out, st'.s, st'.f, i);
      PoppedEdge(g, st, k, c, d, i, x, w);
    }
  }

  lemma SliceBounds(out: seq<int>, s: seq<int>, f: seq<int>, i: int)
    requires Sliced(out, s, f) && 0 <= i < |s|
    ensures |s| == |f| && 0 <= s[i] <= f[i] < |out|
  {
  }

  lemma InPopped(st: State, k: nat, c: set<int>, d: set<int>, w: int)
    requires IsTop(st, k, c) && IsRange(st.out, d) && w in c + d
    ensures w in Popped(st, k).out
  {
    ReversedRange(st.stk[k..]);
    if w in c {
      var i :| k <= i < |st.stk| && st.stk[i] == w;
      assert st.stk[k..][i - k] == w;
    }
  }

  lemma PoppedAnchored(g: Graph, gray: set<int>, st: State, k: nat, y: int)
    requires Placed(st, |g|) && Stacked(g, st) && k < |st.stk| && y in st.stk[..k]
    requires Anchored(g, gray + {st.stk[k]}, st, y)
    ensures Anchored(g, gray, Popped(st, k), y)
  {
    var a :| a in gray + {st.stk[k]} && Visited(st, a) && Visited(st, y) && st.num[a] <= st.num[y] && Reach(g, y, a);
    var j :| 0 <= j < k && st.stk[j] == y;
    OrderedAt(g, st, j, k);
    assert a in gray && Visited(Popped(st, k), a);
  }

  /** The component of `v` is complete and written. */
  lemma FinishPop(g: Graph, gray: set<int>, st0: State, st: State, v: int, low: int)
    requires Inv(g, gray, st0) && Inv(g, gray + {v}, st) && ScanAll(g, st0, st, v, low) && low == st.num[v]
    ensures Inv(g, gray, Popped(st, |st0.stk|)) && Done(g, st0, Popped(st, |st0.stk|), v, low)
  {
    hide Reach, Anchored, Explored, Closed, Components, Stacked, Placed, Sliced, LowReached, LowBounds, Scan, Extends,
         ScanAll, IsGraph, IsTop, IsRange;
    ScanFacts(g, st0, st, v, low);
    var k, st' := |st0.stk|, Popped(st, |st0.stk|);
    var c, d := Range(st.stk[k..]), Range(st.out);
    TopSet(st, k, c, d);
    TopClosed(g, gray, st0, st, v, low, c, d);
    forall i | k <= i < |st.stk| ensures Reach(g, st.stk[i], v) {
      TopReaches(g, gray, st0, st, v, c, d, i);
    }
    PoppedPlaced(g, st, k);
    PoppedComponents(g, st, k, c, d);
    ExploredToo(g, gray, st0, st, v, low);
    PoppedExplored(g, gray, st, k);
    NumSize(st, |g|);
    PoppedExtends(g, st0, st, k, low);
    forall y | y in st'.stk ensures Anchored(g, gray, st', y) {
      InTake(st.stk, k, y);
      PoppedAnchored(g, gray, st, k, y);
    }
  }

  lemma InTake(s: seq<int>, k: nat, y: int)
    requires k <= |s| && y in s[..k]
    ensures y in s
  {
  }

  lemma PoppedExplored(g: Graph, gray: set<int>, st: State, k: nat)
    requires Explored(g, gray, st) && k < |st.stk|
    ensures Explored(g, gray, Popped(st, k))
  {
    var st' := Popped(st, k);
    forall u, w | Visited(st', u) && u !in gray && Linked(g, u, w) ensures Visited(st', w) {
      assert Visited(st, u) && Visited(st, w);
    }
  }

  lemma TopSet(st: State, k: nat, c: set<int>, d: set<int>)
    requires k < |st.stk| && c == Range(st.stk[k..]) && d == Range(st.out)
    ensures IsTop(st, k, c) && IsRange(st.out, d)
  {
    forall y | y in c ensures exists i :: k <= i < |st.stk| && st.stk[i] == y {
      var i :| 0 <= i < |st.stk[k..]| && st.stk[k..][i] == y;
      assert st.stk[i + k] == y;
    }
    forall i | k <= i < |st.stk| ensures st.stk[i] in c {
      assert st.stk[k..][i - k] == st.stk[i];
    }
  }

  lemma PoppedExtends(g: Graph, st0: State, st: State, k: nat, low: int)
    requires Extends(st0, st) && k == |st0.stk| < |st.stk|
    ensures Extends(st0, Popped(st, k)) && Popped(st, k).stk == st0.stk && LowBounds(g, Popped(st, k), k, k, low)
  {
  }

  // ---------- The result ----------

  /** The slices are exactly the classes of mutual reachability: every vertex is in one of them, once, and
      an edge between two slices leads from the later to the earlier one. */
  ghost predicate IsResult(g: Graph, out: seq<int>, s: seq<int>, f: seq<int>) {
    |out| == |g| && Sliced(out, s, f) &&
    (forall v | 0 <= v < |g| :: v in out) &&
    (forall i, j | 0 <= i < j < |out| :: out[i] != out[j]) &&
    (forall i, i', j, k | InSlice(out, s, f, i, j) && InSlice(out, s, f, i', k) ::
       (i == i' <==> Mutual(g, out[j], out[k])) && (Linked(g, out[j], out[k]) ==> i' <= i))
  }

  ghost predicate InSlice(out: seq<int>, s: seq<int>, f: seq<int>, i: int, j: int) {
    0 <= i < |s| && i < |f| && 0 <= j < |out| && s[i] <= j <= f[i]
  }

  /** A set of vertices that starts the result and ends with a slice is closed. */
  lemma PrefixClosed(g: Graph, out: seq<int>, s: seq<int>, f: seq<int>, i: nat, d: set<int>)
    requires Sliced(out, s, f) && Components(g, out, s, f) && i < |s| && IsRange(out[..f[i] + 1], d)
    ensures Closed(g, d)
  {
    forall u, w | u in d && Linked(g, u, w) ensures w in d {
      var j: nat :| j < f[i] + 1 && out[..f[i] + 1][j] == u;
      var h := SliceAt(out, s, f, j, i);
      SlicesInOrder(out, s, f, h, i);
      assert w in out[..f[h] + 1];
      var x: nat :| x < f[h] + 1 && out[..f[h] + 1][x] == w;
      assert out[..f[i] + 1][x] == w;
    }
  }

  lemma {:induction false} SlicesInOrder(out: seq<int>, s: seq<int>, f: seq<int>, h: nat, i: nat)
    requires Sliced(out, s, f) && h <= i < |s|
    ensures f[h] <= f[i] && (h < i ==> f[h] < s[i])
  {
    if h < i { SlicesInOrder(out, s, f, h, i - 1); }
  }

  /** Whatever a vertex of slice `i` reaches lies in slice `i` or before. */
  lemma ReachesBack(g: Graph, out: seq<int>, s: seq<int>, f: seq<int>, i: int, i': int, j: int, k: int)
    requires Sliced(out, s, f) && Components(g, out, s, f) && InSlice(out, s, f, i, j) && InSlice(out, s, f, i', k)
    requires forall a, b | 0 <= a < b < |out| :: out[a] != out[b]
    requires Reach(g, out[j], out[k])
    ensures i' <= i
  {
    hide Reach, Components, Closed;
    var d := Range(out[..f[i] + 1]);
    PrefixClosed(g, out, s, f, i, d);
    assert out[..f[i] + 1][j] == out[j];
    ReachStays(g, d, out[j], out[k]);
    var x: nat :| x < f[i] + 1 && out[..f[i] + 1][x] == out[k];
    assert x == k;
    if i < i' { SlicesInOrder(out, s, f, i, i'); }
  }

  lemma SlicesAreClasses(g: Graph, out: seq<int>, s: seq<int>, f: seq<int>)
    requires Sliced(out, s, f) && Components(g, out, s, f) && |out| == |g|
    requires (forall v | 0 <= v < |g| :: v in out) && forall a, b | 0 <= a < b < |out| :: out[a] != out[b]
    ensures IsResult(g, out, s, f)
  {
    forall i, i', j, k | InSlice(out, s, f, i, j) && InSlice(out, s, f, i', k)
      ensures (i == i' <==> Mutual(g, out[j], out[k])) && (Linked(g, out[j], out[k]) ==> i' <= i)
    {
      if i == i' {
        assert Reach(g, out[j], out[k]) && Reach(g, out[k], out[j]);
      } else if Mutual(g, out[j], out[k]) {
        hide Reach, Components;
        ReachesBack(g, out, s, f, i, i', j, k);
        ReachesBack(g, out, s, f, i', i, k, j);
      }
      if Linked(g, out[j], out[k]) {
        ReachLink(g, out[j], out[k]);
        hide Reach, Components;
        ReachesBack(g, out, s, f, i, i', j, k);
      }
    }
  }

  lemma Unanchored(g: Graph, st: State, y: int)
    requires |st.num| == |g|
    ensures !Anchored(g, {}, st, y)
  {
  }

  lemma NoAnchor(g: Graph, st: State)
    requires |st.num| == |g| && forall i | 0 <= i < |st.stk| :: Anchored(g, {}, st, st.stk[i])
    ensures st.stk == []
  {
    if st.stk != [] {
      Unanchored(g, st, st.stk[0]);
    }
  }

  lemma NothingVisited(g: Graph, st: State)
    requires IsGraph(g) && |st.num| == |g| && st.stk == st.out == st.s == st.f == []
    requires forall v | 0 <= v < |g| :: st.num[v] == UNDEFINED
    ensures Inv(g, {}, st)
  {
  }

  /** Once every vertex has been visited and no search is going on, the result is complete. */
  lemma AllWritten(g: Graph, st: State)
    requires Inv(g, {}, st) && forall v | 0 <= v < |g| :: Visited(st, v)
    ensures st.stk == [] && (|st.out| == |g| ==> IsResult(g, st.out, st.s, st.f))
  {
    forall i | 0 <= i < |st.stk| ensures Anchored(g, {}, st, st.stk[i]) {
    }
    NoAnchor(g, st);
    if |st.out| == |g| {
      SlicesAreClasses(g, st.out, st.s, st.f);
    }
  }

  // ---------- The program ----------

  class Search {
    const g: Graph
    const n: int
    const sc_vertices: array<int>
    const sets_s: array<int>
    const sets_f: array<int>
    const sc_stack: array<int>
    const sp: array<int>
    const visit_nos: array<int>
    const low_link_nos: array<int>
    const unvisited: array<int>
    const p: array<int>
    var tos: int
    var n_unvisited: int
    var n_visited: int
    var n_written: int
    var n_sets: int

    constructor (g: Graph)
      ensures this.g == g && Apart()
      ensures fresh(sc_vertices) && fresh(sets_s) && fresh(sets_f) && fresh(sc_stack) && fresh(sp) && fresh(visit_nos)
      ensures fresh(low_link_nos) && fresh(unvisited) && fresh(p)
    {
      this.g, n := g, |g|;
      sc_vertices := new int[|g|];
      sets_s := new int[|g|];
      sets_f := new int[|g|];
      sc_stack := new int[|g|];
      sp := new int[|g|];
      visit_nos := new int[|g|];
      low_link_nos := new int[|g|];
      unvisited := new int[|g|];
      p := new int[|g|];
    }

    /** Nothing visited yet. */
    method Init()
      requires Apart() && IsGraph(g)
      modifies this, Arrays()
      ensures Valid({}) && n_unvisited == n
    {
      for i := 0 to n
        invariant forall j | 0 <= j < i :: sets_s[j] == UNDEFINED && sets_f[j] == UNDEFINED
        invariant forall j | 0 <= j < i :: visit_nos[j] == UNDEFINED && sp[j] == UNDEFINED
        invariant forall j | 0 <= j < i :: p[j] == j && unvisited[j] == j
      {
        sets_s[i], sets_f[i], visit_nos[i], sp[i] := UNDEFINED, UNDEFINED, UNDEFINED, UNDEFINED;
        p[i], unvisited[i] := i, i;
      }
      tos, n_written, n_visited, n_unvisited, n_sets := 0, 0, 0, n, 0;
      Start();
    }

    ghost function Arrays(): set<array<int>> {
      {sc_vertices, sets_s, sets_f, sc_stack, sp, visit_nos, low_link_nos, unvisited, p}
    }

    ghost predicate Apart() {
      sc_vertices !in {sets_s, sets_f, sc_stack, sp, visit_nos, low_link_nos, unvisited, p} &&
      sets_s !in {sets_f, sc_stack, sp, visit_nos, low_link_nos, unvisited, p} &&
      sets_f !in {sc_stack, sp, visit_nos, low_link_nos, unvisited, p} &&
      sc_stack !in {sp, visit_nos, low_link_nos, unvisited, p} &&
      sp !in {visit_nos, low_link_nos, unvisited, p} &&
      visit_nos !in {low_link_nos, unvisited, p} &&
      low_link_nos !in {unvisited, p} && unvisited != p &&
      n == |g| == sc_vertices.Length == sets_s.Length == sets_f.Length == sc_stack.Length == sp.Length &&
      n == visit_nos.Length == low_link_nos.Length == unvisited.Length == p.Length
    }

    ghost predicate Counted()
      reads this
    {
      0 <= tos && 0 <= n_sets <= n_written && n_visited == tos + n_written && 0 <= n_unvisited == n - n_visited
    }

    /** `unvisited` and `p` are inverse to each other on the vertices without a visit number. */
    ghost predicate Indexed(num: seq<int>)
      requires Apart()
      reads this`n_unvisited, unvisited, p
    {
      n_unvisited <= n == |num| &&
      (forall i | 0 <= i < n_unvisited ::
         0 <= unvisited[i] < n && num[unvisited[i]] == UNDEFINED && p[unvisited[i]] == i) &&
      (forall v | 0 <= v < n && num[v] == UNDEFINED :: 0 <= p[v] < n_unvisited && unvisited[p[v]] == v)
    }

    /** `sp` gives the positions on the stack. */
    ghost predicate Positioned()
      requires Apart()
      reads this`tos, sc_stack, sp
    {
      0 <= tos <= n &&
      (forall i | 0 <= i < tos :: 0 <= sc_stack[i] < n && sp[sc_stack[i]] == i) &&
      (forall v | 0 <= v < n && sp[v] != UNDEFINED :: 0 <= sp[v] < tos && sc_stack[sp[v]] == v)
    }

    ghost predicate Unset()
      requires Apart()
      reads this`n_sets, sets_s, sets_f
    {
      forall i | 0 <= n_sets <= i < n :: sets_s[i] == sets_f[i] == UNDEFINED
    }

    ghost function View(): State
      requires Apart() && Counted()
      reads this, visit_nos, sc_stack, sc_vertices, sets_s, sets_f
    {
      State(visit_nos[..], sc_stack[..tos], sc_vertices[..n_written], sets_s[..n_sets], sets_f[..n_sets])
    }

    ghost predicate Booked()
      reads this, Arrays()
    {
      Apart() && Counted() && Indexed(visit_nos[..]) && Positioned() && Unset()
    }

    ghost predicate Valid(gray: set<int>)
      reads this, Arrays()
    {
      Booked() && Inv(g, gray, View())
    }

    /** Takes `v` from the unvisited vertices; the last of them moves into its place. */
    method TakeUnvisited(v: int, ghost num: seq<int>, ghost x: int)
      requires Apart() && Indexed(num) && 0 <= v < n && num[v] == UNDEFINED && x != UNDEFINED
      modifies this`n_unvisited, unvisited, p
      ensures Indexed(num[v := x]) && n_unvisited == old(n_unvisited) - 1
    {
      n_unvisited := n_unvisited - 1;
      var replace_v := unvisited[n_unvisited];
      unvisited[p[v]] := replace_v;
      p[replace_v] := p[v];
    }

    method Push(v: int)
      requires Apart() && Positioned() && 0 <= v < n && v !in sc_stack[..tos] && tos < n
      modifies this`tos, sc_stack, sp
      ensures Positioned() && tos == old(tos) + 1 && sc_stack[..tos] == old(sc_stack[..tos]) + [v]
    {
      assert forall i | 0 <= i < tos :: sc_stack[i] in sc_stack[..tos];
      sc_stack[tos] := v;
      sp[v] := tos;
      tos := tos + 1;
    }

    /** Numbers `v`, takes it from the unvisited vertices and puts it on the stack. */
    method Enter(v: int)
      requires Booked() && 0 <= v < n && visit_nos[v] == UNDEFINED && v !in sc_stack[..tos]
      modifies this`tos, this`n_unvisited, this`n_visited, low_link_nos, visit_nos, unvisited, p, sc_stack, sp
      ensures Booked() && View() == Pushed(old(View()), v) && n_unvisited == old(n_unvisited) - 1
      ensures low_link_nos[v] == visit_nos[v]
      ensures forall u | 0 <= u < n && u != v :: low_link_nos[u] == old(low_link_nos[u])
    {
      ghost var num := visit_nos[..];
      low_link_nos[v] := n_visited;
      visit_nos[v] := n_visited;
      n_visited := n_visited + 1;
      TakeUnvisited(v, num, n_visited - 1);
      Push(v);
      assert visit_nos[..] == num[v := n_visited - 1];
    }

    /** Moves the stack from vertex `v` on, top first, to the written vertices. */
    method PopStack(v: int)
      requires Apart() && Positioned() && 0 <= v < n && sp[v] != UNDEFINED && 0 <= n_written && n_written + tos <= n
      modifies this`tos, this`n_written, sc_vertices, sp
      ensures Positioned() && tos == old(sp[v]) && n_written == old(n_written + tos) - tos
      ensures sc_vertices[..n_written] == old(sc_vertices[..n_written]) + Reversed(old(sc_stack[..tos])[tos..])
    {
      ghost var k, stk, top, w0 := sp[v], sc_stack[..tos], tos, n_written;
      ghost var out := sc_vertices[..n_written];
      var more := true;
      while more
        invariant Positioned() && tos <= top && sc_stack[..top] == stk
        invariant if more then k < tos && sc_stack[k] == v else k == tos
        invariant w0 <= n_written == w0 + top - tos && sc_vertices[..n_written] == out + Reversed(stk[tos..])
        decreases tos
      {
        tos := tos - 1;
        var replace_v := sc_stack[tos];
        assert replace_v == v <==> tos == k;
        sc_vertices[n_written] := replace_v;
        sp[replace_v] := UNDEFINED;
        n_written := n_written + 1;
        ReversedStep(stk, tos);
        more := replace_v != v;
      }
    }

    lemma ReversedStep(s: seq<int>, t: nat)
      requires t < |s|
      ensures Reversed(s[t..]) == Reversed(s[t + 1..]) + [s[t]]
    {
    }

    /** Writes the stack from vertex `v` on to the result, as one more slice. */
    method PopComponent(v: int)
      requires Booked() && 0 <= v < n && sp[v] != UNDEFINED
      modifies this`tos, this`n_written, this`n_sets, sc_vertices, sets_s, sets_f, sp
      ensures Booked() && View() == Popped(old(View()), old(sp[v]))
    {
      hide Reversed;
      sets_s[n_sets] := n_written;
      PopStack(v);
      sets_f[n_sets] := n_written - 1;
      n_sets := n_sets + 1;
    }

    lemma Start()
      requires Booked() && IsGraph(g) && n_unvisited == |g| && forall v | 0 <= v < |g| :: visit_nos[v] == UNDEFINED
      ensures Valid({})
    {
      NothingVisited(g, View());
    }

    lemma FirstUnvisited()
      requires Valid({}) && n_unvisited > 0
      ensures 0 <= unvisited[0] < n && visit_nos[unvisited[0]] == UNDEFINED
    {
    }

    lemma Finished()
      requires Valid({}) && n_unvisited == 0
      ensures IsResult(g, sc_vertices[..], sets_s[..n_sets], sets_f[..n_sets])
    {
      forall v | 0 <= v < n ensures Visited(View(), v) {
      }
      AllWritten(g, View());
      assert |View().stk| == tos == 0;
      assert sc_vertices[..n_written] == sc_vertices[..];
    }

    lemma NotYet(gray: set<int>, v: int)
      requires Valid(gray) && 0 <= v < n && visit_nos[v] == UNDEFINED
      ensures v !in sc_stack[..tos] && !Visited(View(), v)
    {
    }

    /** What the arrays say about a vertex. */
    lemma AtVertex(gray: set<int>, w: int)
      requires Valid(gray) && 0 <= w < n
      ensures Visited(View(), w) <==> visit_nos[w] != UNDEFINED
      ensures sp[w] != UNDEFINED <==> w in View().stk
      ensures Placed(View(), |g|) && Stacked(g, View()) && View().num[w] == visit_nos[w]
    {
      hide Stacked, Components, Anchored;
      if sp[w] != UNDEFINED {
        assert View().stk[sp[w]] == w;
      }
      if w in View().stk {
        var i :| 0 <= i < tos && sc_stack[i] == w;
      }
    }

    lemma AtEdge(gray: set<int>, v: int, i: int)
      requires Valid(gray) && 0 <= v < n && 0 <= i < |g[v]|
      ensures 0 <= g[v][i].vertex_no < n
    {
    }

    lemma GrayReaches(gray: set<int>, v: int, i: int)
      requires 0 <= v < |g| && 0 <= i < |g[v]| && forall a | a in gray :: Reach(g, a, v)
      ensures forall a | a in gray + {v} :: Reach(g, a, g[v][i].vertex_no)
    {
      hide Reach;
      var w := g[v][i].vertex_no;
      assert Linked(g, v, w);
      ReachLink(g, v, w);
      forall a | a in gray + {v} ensures Reach(g, a, w) {
        if a in gray { ReachTrans(g, a, v, w); }
      }
    }

    /** Where `v` is on the stack when its edges have been gone through. */
    lemma AtEnd(gray: set<int>, st0: State, v: int, low: int)
      requires Booked() && ScanAll(g, st0, View(), v, low) && 0 <= v < n
      ensures sp[v] == |st0.stk| && visit_nos[v] == View().num[v] && low <= visit_nos[v]
    {
      hide Indexed;
      assert View().stk[|st0.stk|] == v;
    }

    /** Depth first search from the unvisited vertex `v`, while the vertices `gray` are being searched. */
    method ScRecursive(v: int, ghost gray: set<int>)
      requires Valid(gray) && 0 <= v < n && visit_nos[v] == UNDEFINED && forall a | a in gray :: Reach(g, a, v)
      modifies this, Arrays()
      ensures Valid(gray) && n_unvisited < old(n_unvisited)
      ensures Done(g, old(View()), View(), v, low_link_nos[v])
      ensures forall u | 0 <= u < n && Visited(old(View()), u) :: low_link_nos[u] == old(low_link_nos[u])
      decreases n_unvisited, 1
    {
      hide Inv, Scan, Done, Indexed, Positioned, Unset, Reach, Placed, Stacked, Pushed;
      ghost var st0 := View();
      NotYet(gray, v);
      GraphSize(gray);
      Enter(v);
      PushKeeps(g, gray, st0, v);
      ScanBegins(g, st0, v);
      PushedNumber(st0, v);
      var i := 0;
      while i < |g[v]|
        invariant Valid(gray + {v}) && n_unvisited < old(n_unvisited) && 0 <= i <= |g[v]|
        invariant Scan(g, st0, View(), v, low_link_nos[v], i)
        invariant forall u | 0 <= u < n && Visited(st0, u) :: low_link_nos[u] == old(low_link_nos[u])
      {
        Follow(v, i, gray, st0);
        i := i + 1;
      }
      AtEnd(gray, st0, v, low_link_nos[v]);
      if low_link_nos[v] == visit_nos[v] {
        FinishPop(g, gray, st0, View(), v, low_link_nos[v]);
        PopComponent(v);
      } else {
        FinishKeep(g, gray, st0, View(), v, low_link_nos[v]);
      }
    }

    lemma GraphSize(gray: set<int>)
      requires Valid(gray)
      ensures IsGraph(g) && |View().num| == |g|
    {
    }

    lemma PushedNumber(st: State, v: int)
      requires 0 <= v < |st.num|
      ensures Pushed(st, v).num[v] == |st.stk| + |st.out|
    {
    }

    /** One turn of the edge loop: edge `i` of `v` is followed. */
    method Follow(v: int, i: int, ghost gray: set<int>, ghost st0: State)
      requires Valid(gray + {v}) && 0 <= v < n && 0 <= i < |g[v]| && Scan(g, st0, View(), v, low_link_nos[v], i)
      requires forall a | a in gray :: Reach(g, a, v)
      modifies this, Arrays()
      ensures Valid(gray + {v}) && n_unvisited <= old(n_unvisited)
      ensures Scan(g, st0, View(), v, low_link_nos[v], i + 1)
      ensures forall u | 0 <= u < n && Visited(st0, u) :: low_link_nos[u] == old(low_link_nos[u])
      decreases n_unvisited, 2
    {
      hide Inv, Scan, Done, Indexed, Positioned, Unset, Reach, Placed, Stacked;
      AtEdge(gray + {v}, v, i);
      var w := g[v][i].vertex_no;
      ghost var st, low := View(), low_link_nos[v];
      AtVertex(gray + {v}, w);
      AtVertex(gray + {v}, v);
      ScanVertex(st0, st, v, low, i);
      if visit_nos[w] == UNDEFINED {
        GrayReaches(gray, v, i);
        ScRecursive(w, gray + {v});
        ScanVisit(g, st0, st, View(), v, low, i, w, low_link_nos[w]);
        if low_link_nos[w] < low_link_nos[v] {
          low_link_nos[v] := low_link_nos[w];
        }
      } else {
        if visit_nos[w] < visit_nos[v] && sp[w] != UNDEFINED {
          if visit_nos[w] < low_link_nos[v] {
            low_link_nos[v] := visit_nos[w];
          }
        }
        ScanSeen(g, st0, st, v, low, i, w, low_link_nos[v]);
      }
    }

    lemma ScanVertex(st0: State, st: State, v: int, low: int, e: int)
      requires Scan(g, st0, st, v, low, e)
      ensures !Visited(st0, v) && Visited(st, v) && forall u | Visited(st0, u) :: Visited(st, u)
    {
    }
  }

  /** Tarjan's algorithm on the whole graph: the slices of the result are the classes of mutual
      reachability, and entries beyond the last slice are undefined. */
  method Sc(g: Graph) returns (n_sets: int, vertices: array<int>, sets_s: array<int>, sets_f: array<int>)
    requires IsGraph(g) && |g| >= 1
    ensures vertices.Length == sets_s.Length == sets_f.Length == |g| && 0 <= n_sets <= |g|
    ensures IsResult(g, vertices[..], sets_s[..n_sets], sets_f[..n_sets])
    ensures forall i | n_sets <= i < |g| :: sets_s[i] == sets_f[i] == -1
  {
    hide Inv, Search.Indexed, Search.Positioned, Reach;
    var t := new Search(g);
    t.Init();
    var more := true;
    while more
      invariant t.Valid({}) && (if more then t.n_unvisited > 0 else t.n_unvisited == 0)
      decreases t.n_unvisited, more
    {
      var v := t.unvisited[0];
      t.FirstUnvisited();
      t.ScRecursive(v, {});
      more := t.n_unvisited != 0;
    }
    t.Finished();
    return t.n_sets, t.sc_vertices, t.sets_s, t.sets_f;
  }
}

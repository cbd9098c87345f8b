/** Heapsort and the alternating mergesort (italos/lib/sort.c), for any element type and any comparator that
    is a total preorder.  Positions are element numbers, not byte offsets. */
module Sorting {

  // ---------- Order ----------

  /** `compar` orders any two elements, the two ways round consistently, and transitively. */
  ghost predicate TotalPreorder<T(!new)>(compar: (T, T) -> int) {
    (forall a, b :: compar(a, b) > 0 <==> compar(b, a) < 0) &&
    (forall a, b, c :: compar(a, b) <= 0 && compar(b, c) <= 0 ==> compar(a, c) <= 0)
  }

  ghost predicate Ascending<T>(compar: (T, T) -> int, s: seq<T>) {
    forall i, j | 0 <= i < j < |s| :: compar(s[i], s[j]) <= 0
  }

  /** No element of `s` sorts after `top`. */
  ghost predicate UpTo<T>(compar: (T, T) -> int, s: seq<T>, top: T) {
    forall i | 0 <= i < |s| :: compar(s[i], top) <= 0
  }

  // ---------- Heaps with a hole ----------

  ghost function Parent(i: int): (p: int)
    requires i >= 1
    ensures 0 <= p < i
  {
    (i - 1) / 2
  }

  /** From position `lo` on no element sorts after its parent, the hole left out. */
  ghost predicate Heap<T>(compar: (T, T) -> int, a: seq<T>, lo: int, n: int, hole: int) {
    0 <= lo && n <= |a| &&
    forall i | 1 <= i < n && Parent(i) >= lo && i != hole && Parent(i) != hole :: compar(a[i], a[Parent(i)]) <= 0
  }

  /** The children of the hole do not sort after its parent. */
  ghost predicate Bridged<T>(compar: (T, T) -> int, a: seq<T>, lo: int, n: int, hole: int) {
    0 <= lo && 0 <= hole && n <= |a| &&
    forall i | 1 <= i < n && Parent(i) == hole && hole >= 1 && Parent(hole) >= lo :: compar(a[i], a[Parent(hole)]) <= 0
  }

  /** `y` may go into the hole as far as its children are concerned. */
  ghost predicate BelowFits<T>(compar: (T, T) -> int, a: seq<T>, n: int, hole: int, y: T) {
    n <= |a| && forall i | 1 <= i < n && Parent(i) == hole :: compar(a[i], y) <= 0
  }

  ghost predicate AboveFits<T>(compar: (T, T) -> int, a: seq<T>, lo: int, hole: int, y: T) {
    hole >= 1 && Parent(hole) >= lo ==> hole < |a| && compar(y, a[Parent(hole)]) <= 0
  }

  /** The larger child moves up into the hole. */
  lemma ChildUp<T(!new)>(compar: (T, T) -> int, a: seq<T>, lo: int, n: int, hole: int, k: int)
    requires TotalPreorder(compar) && Heap(compar, a, lo, n, hole) && Bridged(compar, a, lo, n, hole)
    requires lo <= hole && 1 <= k < n && Parent(k) == hole && BelowFits(compar, a, n, hole, a[k])
    ensures var a' := a[hole := a[k]]; Heap(compar, a', lo, n, k) && Bridged(compar, a', lo, n, k)
    ensures forall y | compar(y, a[k]) <= 0 :: AboveFits(compar, a[hole := a[k]], lo, k, y)
  {
  }

  /** A parent that sorts before `y` moves down into the hole. */
  lemma ParentDown<T(!new)>(compar: (T, T) -> int, a: seq<T>, n: int, hole: int, y: T)
    requires TotalPreorder(compar) && Heap(compar, a, 0, n, hole) && Bridged(compar, a, 0, n, hole)
    requires 1 <= hole < n && compar(y, a[Parent(hole)]) > 0
    ensures var a' := a[hole := a[Parent(hole)]];
            Heap(compar, a', 0, n, Parent(hole)) && Bridged(compar, a', 0, n, Parent(hole)) &&
            BelowFits(compar, a', n, Parent(hole), y)
  {
  }

  /** `y` goes into the hole. */
  lemma FillHole<T(!new)>(compar: (T, T) -> int, a: seq<T>, lo: int, n: int, hole: int, y: T)
    requires Heap(compar, a, lo, n, hole) && 0 <= hole < n
    requires BelowFits(compar, a, n, hole, y) && AboveFits(compar, a, lo, hole, y)
    ensures Heap(compar, a[hole := y], lo, n, -1)
  {
  }

  lemma {:induction false} RootIsLargest<T(!new)>(compar: (T, T) -> int, a: seq<T>, n: int, i: int)
    requires TotalPreorder(compar) && Heap(compar, a, 0, n, -1) && 0 <= i < n
    ensures compar(a[i], a[0]) <= 0
    decreases i
  {
    if i >= 1 { RootIsLargest(compar, a, n, Parent(i)); }
  }

  /** Moving an element into the hole and the hole to its place keeps what the array holds once `y` is in. */
  lemma MoveKeeps<T>(a: seq<T>, hole: int, k: int, y: T)
    requires 0 <= hole < |a| && 0 <= k < |a| && hole != k
    ensures multiset(a[hole := a[k]][k := y]) == multiset(a[hole := y])
  {
    assert a[hole := a[k]][k := y] == a[hole := y][hole := a[k]][k := y];
  }

  // ---------- Heapsort ----------

  /** The larger child of `j` among the first `n` elements, given its left child `k`. */
  method LargerChild<T(!new)>(compar: (T, T) -> int, base: array<T>, j: int, k: int, n: int) returns (child: int)
    requires TotalPreorder(compar) && 0 <= j && k == 2 * j + 1 && k < n <= base.Length
    ensures k <= child <= k + 1 && child < n && Parent(child) == j && BelowFits(compar, base[..], n, j, base[child])
  {
    child := k;
    if k < n - 1 {
      var other_k := k + 1;
      if compar(base[k], base[other_k]) < 0 {
        child := other_k;
      }
    }
    ghost var a := base[..];
    forall i | 1 <= i < n && Parent(i) == j ensures compar(a[i], a[child]) <= 0 {
      assert i == k || i == k + 1;
      assert compar(a[i], a[i]) <= 0;
    }
  }

  /** Bottom-up building, one step: the subtree at `i` becomes a heap. */
  method SiftUp<T(!new)>(compar: (T, T) -> int, base: array<T>, i: int)
    requires TotalPreorder(compar) && 0 <= i < base.Length && Heap(compar, base[..], i + 1, base.Length, -1)
    modifies base
    ensures Heap(compar, base[..], i, base.Length, -1) && multiset(base[..]) == multiset(old(base[..]))
  {
    hide TotalPreorder, Heap, Bridged, BelowFits, AboveFits;
    var n := base.Length;
    var y := base[i];
    var j := i;
    var k := 2 * i + 1;
    OpenHole(compar, base[..], i, n, y);
    NoChild(compar, base[..], n, j, y);
    assert base[..][j := y] == base[..];
    while k <= n - 1
      invariant i <= j < n && k == 2 * j + 1
      invariant Heap(compar, base[..], i, n, j) && Bridged(compar, base[..], i, n, j)
      invariant AboveFits(compar, base[..], i, j, y) && multiset(base[..][j := y]) == multiset(old(base[..]))
      invariant k > n - 1 ==> BelowFits(compar, base[..], n, j, y)
      decreases n - j
    {
      var child := LargerChild(compar, base, j, k, n);
      ghost var a := base[..];
      if compar(y, base[child]) >= 0 {
        LowerFits(compar, a, n, j, child, y);
        break;
      }
      Sign(compar, y, a[child]);
      ChildUp(compar, a, i, n, j, child);
      MoveKeeps(a, j, child, y);
      base[j] := base[child];
      assert base[..] == a[j := a[child]];
      j := child;
      k := 2 * j + 1;
      NoChild(compar, base[..], n, j, y);
    }
    ghost var a := base[..];
    FillHole(compar, a, i, n, j, y);
    base[j] := y;
    assert base[..] == a[j := y];
  }

  lemma OpenHole<T>(compar: (T, T) -> int, a: seq<T>, i: int, n: int, y: T)
    requires 0 <= i < n && Heap(compar, a, i + 1, n, -1)
    ensures Heap(compar, a, i, n, i) && Bridged(compar, a, i, n, i) && AboveFits(compar, a, i, i, y)
  {
  }

  lemma NoChild<T>(compar: (T, T) -> int, a: seq<T>, n: int, j: int, y: T)
    requires 0 <= j && n <= |a|
    ensures 2 * j + 1 > n - 1 ==> BelowFits(compar, a, n, j, y)
  {
  }

  lemma LowerFits<T(!new)>(compar: (T, T) -> int, a: seq<T>, n: int, j: int, child: int, y: T)
    requires TotalPreorder(compar) && 0 <= child < n <= |a| && BelowFits(compar, a, n, j, a[child]) &&
             compar(y, a[child]) >= 0
    ensures BelowFits(compar, a, n, j, y)
  {
    assert compar(a[child], y) <= 0;
  }

  lemma Sign<T(!new)>(compar: (T, T) -> int, a: T, b: T)
    requires TotalPreorder(compar)
    ensures compar(a, b) < 0 <==> compar(b, a) > 0
    ensures compar(a, b) <= 0 <==> compar(b, a) >= 0
  {
  }

  /** The larger children move up along a path until the hole is at the bottom of the heap. */
  method Descend<T(!new)>(compar: (T, T) -> int, base: array<T>, m: int, ghost y: T) returns (j: int)
    requires TotalPreorder(compar) && 1 <= m <= base.Length
    requires Heap(compar, base[..], 0, m, 0) && Bridged(compar, base[..], 0, m, 0)
    modifies base
    ensures 0 <= j < m && Heap(compar, base[..], 0, m, j) && Bridged(compar, base[..], 0, m, j)
    ensures BelowFits(compar, base[..], m, j, y) && base[m..] == old(base[m..])
    ensures multiset(base[..m][j := y]) == multiset(old(base[..m][0 := y]))
  {
    hide TotalPreorder, Heap, Bridged, BelowFits;
    j := 0;
    var k := 1;
    NoChild(compar, base[..], m, j, y);
    while k <= m - 1
      invariant 0 <= j < m && k == 2 * j + 1
      invariant Heap(compar, base[..], 0, m, j) && Bridged(compar, base[..], 0, m, j)
      invariant base[m..] == old(base[m..]) && multiset(base[..m][j := y]) == multiset(old(base[..m][0 := y]))
      invariant k > m - 1 ==> BelowFits(compar, base[..], m, j, y)
      decreases m - j
    {
      var child := LargerChild(compar, base, j, k, m);
      ghost var a := base[..];
      ChildUp(compar, a, 0, m, j, child);
      MoveKeeps(a[..m], j, child, y);
      base[j] := base[child];
      assert base[..] == a[j := a[child]] && base[..m] == a[..m][j := a[..m][child]];
      j := child;
      k := 2 * j + 1;
      NoChild(compar, base[..], m, j, y);
    }
  }

  /** From the bottom the hole climbs until `y` fits, and `y` goes in. */
  method Climb<T(!new)>(compar: (T, T) -> int, base: array<T>, m: int, j0: int, y: T)
    requires TotalPreorder(compar) && 0 <= j0 < m <= base.Length
    requires Heap(compar, base[..], 0, m, j0) && Bridged(compar, base[..], 0, m, j0) &&
             BelowFits(compar, base[..], m, j0, y)
    modifies base
    ensures Heap(compar, base[..], 0, m, -1) && base[m..] == old(base[m..])
    ensures multiset(base[..m]) == multiset(old(base[..m])[j0 := y])
  {
    hide TotalPreorder, Heap, Bridged, BelowFits, AboveFits;
    var j := j0;
    AtTop(compar, base[..], j, y);
    while j > 0
      invariant 0 <= j < m && Heap(compar, base[..], 0, m, j) && Bridged(compar, base[..], 0, m, j)
      invariant BelowFits(compar, base[..], m, j, y) && (j == 0 ==> AboveFits(compar, base[..], 0, j, y))
      invariant base[m..] == old(base[m..]) && multiset(base[..m][j := y]) == multiset(old(base[..m])[j0 := y])
    {
      var k := (j - 1) / 2;
      ghost var a := base[..];
      AtParent(compar, a, j, y);
      if compar(y, base[k]) <= 0 {
        break;
      }
      ParentDown(compar, a, m, j, y);
      MoveKeeps(a[..m], j, k, y);
      base[j] := base[k];
      assert base[..] == a[j := a[k]] && base[..m] == a[..m][j := a[..m][k]];
      j := k;
      AtTop(compar, base[..], j, y);
    }
    ghost var a := base[..];
    FillHole(compar, a, 0, m, j, y);
    base[j] := y;
    assert base[..] == a[j := y] && base[..m] == a[..m][j := y];
  }

  lemma AtTop<T>(compar: (T, T) -> int, a: seq<T>, j: int, y: T)
    ensures j == 0 ==> AboveFits(compar, a, 0, j, y)
  {
  }

  lemma AtParent<T>(compar: (T, T) -> int, a: seq<T>, j: int, y: T)
    requires 1 <= j < |a|
    ensures Parent(j) == (j - 1) / 2 && (compar(y, a[(j - 1) / 2]) <= 0 ==> AboveFits(compar, a, 0, j, y))
  {
  }

  /** `y` goes into the heap of the first `m` elements, whose root is free. */
  method PlaceLast<T(!new)>(compar: (T, T) -> int, base: array<T>, m: int, y: T)
    requires TotalPreorder(compar) && 1 <= m <= base.Length
    requires Heap(compar, base[..], 0, m, 0) && Bridged(compar, base[..], 0, m, 0)
    modifies base
    ensures Heap(compar, base[..], 0, m, -1) && base[m..] == old(base[m..])
    ensures multiset(base[..m]) == multiset(old(base[..m])[0 := y])
  {
    hide TotalPreorder, Heap, Bridged, BelowFits;
    var j := Descend(compar, base, m, y);
    Climb(compar, base, m, j, y);
  }

  /** In the array the first `m` elements form a heap and the others are in their final places. */
  ghost predicate HeapThenSorted<T>(compar: (T, T) -> int, a: seq<T>, m: int) {
    1 <= m <= |a| && Heap(compar, a, 0, m, -1) && Ascending(compar, a[m..]) && (m < |a| ==> UpTo(compar, a[..m], a[m]))
  }

  /** The root of the heap is the next to take its final place, at position `m`. */
  lemma RootTakesPlace<T(!new)>(compar: (T, T) -> int, a: seq<T>, m: int, b: seq<T>)
    requires TotalPreorder(compar) && 1 <= m < |a| == |b| && HeapThenSorted(compar, a, m + 1)
    requires Heap(compar, b, 0, m, -1) && b[m..] == [a[0]] + a[m + 1..] &&
             multiset(b[..m]) == multiset(a[..m][0 := a[m]])
    ensures HeapThenSorted(compar, b, m) && multiset(b) == multiset(a)
  {
    var top := a[0];
    assert b[m..][0] == top;
    RootAbove(compar, a, m + 1);
    hide TotalPreorder, Heap, UpTo, Ascending;
    PartsKeep(a, m, b);
    MembersUpTo(compar, b[..m], a[..m + 1], top);
    if m + 1 < |a| {
      FirstUpTo(compar, a, m + 1);
      AllAfter(compar, top, a[m + 1..]);
    } else {
      assert b[m..] == [top];
      OneAscending(compar, top);
    }
  }

  lemma PartsKeep<T>(a: seq<T>, m: int, b: seq<T>)
    requires 1 <= m < |a| == |b| && b[m..] == [a[0]] + a[m + 1..] && multiset(b[..m]) == multiset(a[..m][0 := a[m]])
    ensures multiset(b) == multiset(a) && multiset(b[..m]) <= multiset(a[..m + 1])
  {
    var rest := multiset(a[m + 1..]);
    Exchange(a[..m], a[m]);
    assert a[..m + 1] == a[..m] + [a[m]] && a[..m][0] == a[0];
    JoinParts(a, m + 1);
    JoinParts(b, m);
    assert multiset(b[m..]) == multiset{a[0]} + rest;
    var low := multiset(b[..m]);
    assert low + (multiset{a[0]} + rest) == (low + multiset{a[0]}) + rest;
  }

  lemma JoinParts<T>(s: seq<T>, k: int)
    requires 0 <= k <= |s|
    ensures multiset(s) == multiset(s[..k]) + multiset(s[k..])
  {
    assert s == s[..k] + s[k..];
  }

  lemma OneAscending<T>(compar: (T, T) -> int, x: T)
    ensures Ascending(compar, [x])
  {
  }

  lemma FirstUpTo<T>(compar: (T, T) -> int, a: seq<T>, m: int)
    requires 1 <= m < |a| && UpTo(compar, a[..m], a[m])
    ensures compar(a[0], a[m]) <= 0 && a[m..] != [] && a[m..][0] == a[m]
  {
    assert a[..m][0] == a[0];
  }

  lemma RootAbove<T(!new)>(compar: (T, T) -> int, a: seq<T>, m: int)
    requires TotalPreorder(compar) && Heap(compar, a, 0, m, -1) && 1 <= m <= |a|
    ensures UpTo(compar, a[..m], a[0])
  {
    forall i | 0 <= i < m ensures compar(a[i], a[0]) <= 0 {
      RootIsLargest(compar, a, m, i);
    }
  }

  lemma Exchange<T>(s: seq<T>, y: T)
    requires s != []
    ensures multiset(s[0 := y]) + multiset{s[0]} == multiset(s + [y])
  {
    assert s == [s[0]] + s[1..] && s[0 := y] == [y] + s[1..];
  }

  lemma MembersUpTo<T>(compar: (T, T) -> int, s: seq<T>, t: seq<T>, top: T)
    requires multiset(s) <= multiset(t) && UpTo(compar, t, top)
    ensures UpTo(compar, s, top)
  {
    forall i | 0 <= i < |s| ensures compar(s[i], top) <= 0 {
      assert s[i] in multiset(s);
      assert s[i] in multiset(t);
      var j :| 0 <= j < |t| && t[j] == s[i];
    }
  }

  lemma AllAfter<T(!new)>(compar: (T, T) -> int, top: T, s: seq<T>)
    requires TotalPreorder(compar) && s != [] && Ascending(compar, s) && compar(top, s[0]) <= 0
    ensures Ascending(compar, [top] + s)
  {
    var t := [top] + s;
    forall i, j | 0 <= i < j < |t| ensures compar(t[i], t[j]) <= 0 {
      if i == 0 && j > 1 {
        assert compar(s[0], s[j - 1]) <= 0;
      }
    }
  }

  /** `heapsort`. */
  method Heapsort<T(!new)>(compar: (T, T) -> int, base: array<T>)
    requires TotalPreorder(compar) && base.Length >= 2
    modifies base
    ensures forall i, j | 0 <= i < j < base.Length :: compar(base[i], base[j]) <= 0
    ensures multiset(base[..]) == multiset(old(base[..]))
  {
    hide TotalPreorder, Heap, Bridged, HeapThenSorted, Ascending;
    var nmemb := base.Length;
    var i := (nmemb - 2) / 2;
    LeavesOnly(compar, base[..]);
    while i >= 0
      invariant -1 <= i <= (nmemb - 2) / 2
      invariant Heap(compar, base[..], i + 1, nmemb, -1) && multiset(base[..]) == multiset(old(base[..]))
    {
      SiftUp(compar, base, i);
      i := i - 1;
    }
    i := nmemb - 1;
    NothingSorted(compar, base[..]);
    while i > 0
      invariant 0 <= i < nmemb && HeapThenSorted(compar, base[..], i + 1) &&
                multiset(base[..]) == multiset(old(base[..]))
    {
      ghost var a := base[..];
      StillHeap(compar, a, i + 1);
      var y := base[i];
      base[i] := base[0];
      RootHole(compar, a, base[..], i);
      i := i - 1;
      PlaceLast(compar, base, i + 1, y);
      RootTakesPlace(compar, a, i + 1, base[..]);
    }
    OneLeft(compar, base[..]);
  }

  lemma NothingSorted<T>(compar: (T, T) -> int, a: seq<T>)
    requires |a| >= 1 && Heap(compar, a, 0, |a|, -1)
    ensures HeapThenSorted(compar, a, |a|)
  {
  }

  lemma StillHeap<T>(compar: (T, T) -> int, a: seq<T>, m: int)
    requires HeapThenSorted(compar, a, m)
    ensures Heap(compar, a, 0, m, -1)
  {
  }

  lemma LeavesOnly<T>(compar: (T, T) -> int, a: seq<T>)
    requires |a| >= 2
    ensures Heap(compar, a, (|a| - 2) / 2 + 1, |a|, -1)
  {
  }

  lemma RootHole<T>(compar: (T, T) -> int, a: seq<T>, b: seq<T>, i: int)
    requires 1 <= i < |a| && Heap(compar, a, 0, i + 1, -1) && b == a[i := a[0]]
    ensures Heap(compar, b, 0, i, 0) && Bridged(compar, b, 0, i, 0)
    ensures b[i..] == [a[0]] + a[i + 1..] && b[..i] == a[..i]
  {
  }

  lemma OneLeft<T(!new)>(compar: (T, T) -> int, a: seq<T>)
    requires TotalPreorder(compar) && |a| >= 2 && HeapThenSorted(compar, a, 1)
    ensures Ascending(compar, a)
  {
    FirstUpTo(compar, a, 1);
    AllAfter(compar, a[0], a[1..]);
    assert a == [a[0]] + a[1..];
  }

  // ---------- Stable sorting ----------

  /** The elements of `s` that sort with `x`, in the order they have in `s`. */
  ghost function Class<T>(compar: (T, T) -> int, s: seq<T>, x: T): seq<T> {
    if s == [] then []
    else
      var rest, last := Class(compar, s[..|s| - 1], x), s[|s| - 1];
      if compar(last, x) == 0 then rest + [last] else rest
  }

  /** `t` is `s` sorted, elements that sort together keeping their order. */
  ghost predicate StablySorted<T(!new)>(compar: (T, T) -> int, s: seq<T>, t: seq<T>) {
    Ascending(compar, t) && forall x :: Class(compar, t, x) == Class(compar, s, x)
  }

  lemma ClassSnoc<T>(compar: (T, T) -> int, s: seq<T>, e: T, x: T)
    ensures Class(compar, s + [e], x) ==
            if compar(e, x) == 0 then Class(compar, s, x) + [e] else Class(compar, s, x)
  {
    assert (s + [e])[..|s|] == s;
  }

  lemma {:induction false} ClassJoin<T>(compar: (T, T) -> int, s: seq<T>, t: seq<T>, x: T)
    ensures Class(compar, s + t, x) == Class(compar, s, x) + Class(compar, t, x)
  {
    if t == [] {
      assert s + t == s;
    } else {
      hide Class;
      var t0, e := t[..|t| - 1], t[|t| - 1];
      ClassJoin(compar, s, t0, x);
      assert s + t == (s + t0) + [e] && t == t0 + [e];
      ClassSnoc(compar, s + t0, e, x);
      ClassSnoc(compar, t0, e, x);
      var c, c0 := Class(compar, s, x), Class(compar, t0, x);
      assert c + (c0 + [e]) == (c + c0) + [e];
    }
  }

  lemma {:induction false} ClassCount<T>(compar: (T, T) -> int, s: seq<T>, x: T)
    requires compar(x, x) == 0
    ensures multiset(Class(compar, s, x))[x] == multiset(s)[x]
  {
    if s != [] {
      var s0, e := s[..|s| - 1], s[|s| - 1];
      ClassCount(compar, s0, x);
      assert s == s0 + [e];
      ClassSnoc(compar, s0, e, x);
    }
  }

  /** A stable sort is a permutation. */
  lemma StablePermutes<T(!new)>(compar: (T, T) -> int, s: seq<T>, t: seq<T>)
    requires TotalPreorder(compar) && StablySorted(compar, s, t)
    ensures multiset(t) == multiset(s)
  {
    forall x ensures multiset(t)[x] == multiset(s)[x] {
      assert compar(x, x) == 0;
      ClassCount(compar, s, x);
      ClassCount(compar, t, x);
      assert Class(compar, t, x) == Class(compar, s, x);
    }
  }

  lemma {:induction false} NoneInClass<T>(compar: (T, T) -> int, s: seq<T>, x: T)
    requires forall i | 0 <= i < |s| :: compar(s[i], x) != 0
    ensures Class(compar, s, x) == []
  {
    if s != [] {
      var s0, e := s[..|s| - 1], s[|s| - 1];
      assert s == s0 + [e];
      forall i | 0 <= i < |s0| ensures compar(s0[i], x) != 0 {
        assert s0[i] == s[i];
      }
      NoneInClass(compar, s0, x);
    }
  }

  // ---------- Merging ----------

  /** `out` merges the first `i` elements of `a` with the first `j` of `b`, and nothing left over belongs
      before anything taken. */
  ghost predicate Merging<T(!new)>(compar: (T, T) -> int, a: seq<T>, b: seq<T>, i: int, j: int, out: seq<T>) {
    0 <= i <= |a| && 0 <= j <= |b| && |out| == i + j && Ascending(compar, out) &&
    (forall k, l | 0 <= k < |out| && i <= l < |a| :: compar(out[k], a[l]) <= 0) &&
    (forall k, l | 0 <= k < |out| && j <= l < |b| :: compar(out[k], b[l]) <= 0) &&
    (forall k, l | 0 <= k < j && i <= l < |a| :: compar(a[l], b[k]) > 0) &&
    (forall x :: Class(compar, out, x) == Class(compar, a[..i], x) + Class(compar, b[..j], x))
  }

  lemma AscendingSnoc<T(!new)>(compar: (T, T) -> int, s: seq<T>, e: T)
    requires Ascending(compar, s) && UpTo(compar, s, e)
    ensures Ascending(compar, s + [e])
  {
  }

  /** The next element comes from the first part; on ties it is preferred. */
  lemma TakeFirst<T(!new)>(compar: (T, T) -> int, a: seq<T>, b: seq<T>, i: int, j: int, out: seq<T>)
    requires TotalPreorder(compar) && Ascending(compar, a) && Ascending(compar, b) && Merging(compar, a, b, i, j, out)
    requires i < |a| && (j < |b| ==> compar(a[i], b[j]) <= 0)
    ensures Merging(compar, a, b, i + 1, j, out + [a[i]])
  {
    var e := a[i];
    AscendingSnoc(compar, out, e);
    assert forall l | j <= l < |b| :: compar(e, b[l]) <= 0;
    forall x ensures Class(compar, out + [e], x) == Class(compar, a[..i + 1], x) + Class(compar, b[..j], x) {
      FirstClass(compar, a, b, i, j, out, x);
    }
  }

  lemma FirstClass<T(!new)>(compar: (T, T) -> int, a: seq<T>, b: seq<T>, i: int, j: int, out: seq<T>, x: T)
    requires TotalPreorder(compar) && 0 <= i < |a| && 0 <= j <= |b|
    requires forall k | 0 <= k < j :: compar(a[i], b[k]) > 0
    requires Class(compar, out, x) == Class(compar, a[..i], x) + Class(compar, b[..j], x)
    ensures Class(compar, out + [a[i]], x) == Class(compar, a[..i + 1], x) + Class(compar, b[..j], x)
  {
    var e := a[i];
    assert a[..i + 1] == a[..i] + [e];
    ClassSnoc(compar, out, e, x);
    ClassSnoc(compar, a[..i], e, x);
    if compar(e, x) == 0 {
      forall k | 0 <= k < |b[..j]| ensures compar(b[..j][k], x) != 0 {
        assert compar(e, b[k]) > 0;
      }
      NoneInClass(compar, b[..j], x);
    }
  }

  /** The next element comes from the second part, because it sorts strictly before the first part's. */
  lemma TakeSecond<T(!new)>(compar: (T, T) -> int, a: seq<T>, b: seq<T>, i: int, j: int, out: seq<T>)
    requires TotalPreorder(compar) && Ascending(compar, a) && Ascending(compar, b) && Merging(compar, a, b, i, j, out)
    requires j < |b| && (i < |a| ==> compar(a[i], b[j]) > 0)
    ensures Merging(compar, a, b, i, j + 1, out + [b[j]])
  {
    var e := b[j];
    AscendingSnoc(compar, out, e);
    assert b[..j + 1] == b[..j] + [e];
    forall l | i <= l < |a| ensures compar(a[l], e) > 0 {
      assert l > i ==> compar(a[i], a[l]) <= 0;
    }
    forall x ensures Class(compar, out + [e], x) == Class(compar, a[..i], x) + Class(compar, b[..j + 1], x) {
      ClassSnoc(compar, out, e, x);
      ClassSnoc(compar, b[..j], e, x);
    }
  }

  lemma MergeDone<T(!new)>(compar: (T, T) -> int, a: seq<T>, b: seq<T>, out: seq<T>)
    requires Merging(compar, a, b, |a|, |b|, out)
    ensures StablySorted(compar, a + b, out)
  {
    assert a[..|a|] == a && b[..|b|] == b;
    forall x ensures Class(compar, out, x) == Class(compar, a + b, x) {
      ClassJoin(compar, a, b, x);
    }
  }

  lemma MergeBegins<T(!new)>(compar: (T, T) -> int, a: seq<T>, b: seq<T>)
    ensures Merging(compar, a, b, 0, 0, [])
  {
    assert a[..0] == [] && b[..0] == [];
  }

  /** Copies one element to the end of the merge result. */
  method Put<T>(dst: array<T>, lo: int, k: int, hi: int, e: T)
    requires 0 <= lo <= k < hi <= dst.Length
    modifies dst
    ensures dst[lo..k + 1] == old(dst[lo..k]) + [e]
    ensures forall x | 0 <= x < lo || hi <= x < dst.Length :: dst[x] == old(dst[x])
  {
    dst[k] := e;
  }

  /** Copies what is left of the region src[i..end], of which the other region has nothing left. */
  method CopyRest<T(!new)>(compar: (T, T) -> int, src: array<T>, dst: array<T>, lo: int, k0: int, hi: int, i0: int,
                           end: int,
                           ghost a: seq<T>, ghost b: seq<T>, ghost u: int, ghost v: int)
    requires TotalPreorder(compar) && src != dst && 0 <= lo <= k0 && k0 + (end - i0) <= hi <= dst.Length
    requires 0 <= i0 <= end <= src.Length && Ascending(compar, a) && Ascending(compar, b)
    requires Merging(compar, a, b, u, v, dst[lo..k0]) && 0 <= u <= |a| && 0 <= v <= |b|
    requires u == |a| || v == |b|
    requires end - i0 == if v == |b| then |a| - u else |b| - v
    requires forall x | i0 <= x < end :: src[x] == if v == |b| then a[u + (x - i0)] else b[v + (x - i0)]
    modifies dst
    ensures Merging(compar, a, b, |a|, |b|, dst[lo..k0 + (end - i0)])
    ensures forall x | 0 <= x < lo || hi <= x < dst.Length :: dst[x] == old(dst[x])
  {
    hide TotalPreorder, Merging, Ascending;
    for i := i0 to end
      invariant Merging(compar, a, b, if v == |b| then u + (i - i0) else u, if v == |b| then v else v + (i - i0),
                        dst[lo..k0 + (i - i0)])
      invariant forall x | 0 <= x < lo || hi <= x < dst.Length :: dst[x] == old(dst[x])
    {
      var k := k0 + (i - i0);
      ghost var out := dst[lo..k];
      if v == |b| {
        TakeFirst(compar, a, b, u + (i - i0), v, out);
      } else {
        TakeSecond(compar, a, b, u, v + (i - i0), out);
      }
      Put(dst, lo, k, hi, src[i]);
    }
  }

  /** Merges while both regions, holding `a` and `b`, have elements left. */
  method MergeBoth<T(!new)>(compar: (T, T) -> int, src: array<T>, dst: array<T>, lo: int, m: int, hi: int,
                            ghost a: seq<T>, ghost b: seq<T>)
      returns (i: int, j: int, k: int)
    requires TotalPreorder(compar) && src != dst && 0 <= lo <= m <= hi <= src.Length && hi <= dst.Length
    requires |a| == m - lo && |b| == hi - m && Ascending(compar, a) && Ascending(compar, b)
    requires (forall x | lo <= x < m :: src[x] == a[x - lo]) && forall x | m <= x < hi :: src[x] == b[x - m]
    modifies dst
    ensures lo <= i <= m <= j <= hi && k == i + j - m && (i == m || j == hi)
    ensures Merging(compar, a, b, i - lo, j - m, dst[lo..k])
    ensures forall x | 0 <= x < lo || hi <= x < dst.Length :: dst[x] == old(dst[x])
  {
    hide TotalPreorder, Merging, Ascending;
    i, j, k := lo, m, lo;
    MergeBegins(compar, a, b);
    assert dst[lo..k] == [];
    while i < m && j < hi
      invariant lo <= i <= m <= j <= hi && k == i + j - m
      invariant Merging(compar, a, b, i - lo, j - m, dst[lo..k])
      invariant forall x | 0 <= x < lo || hi <= x < dst.Length :: dst[x] == old(dst[x])
    {
      if compar(src[i], src[j]) <= 0 {
        TakeFirst(compar, a, b, i - lo, j - m, dst[lo..k]);
        Put(dst, lo, k, hi, src[i]);
        i := i + 1;
      } else {
        TakeSecond(compar, a, b, i - lo, j - m, dst[lo..k]);
        Put(dst, lo, k, hi, src[j]);
        j := j + 1;
      }
      k := k + 1;
    }
  }

  /** Merges the sorted regions src[lo..m] and src[m..hi], holding `a` and `b`, into dst[lo..hi]. */
  method Merge<T(!new)>(compar: (T, T) -> int, src: array<T>, dst: array<T>, lo: int, m: int, hi: int,
                        ghost a: seq<T>, ghost b: seq<T>)
    requires TotalPreorder(compar) && src != dst && 0 <= lo <= m <= hi <= src.Length && hi <= dst.Length
    requires a == src[lo..m] && b == src[m..hi] && Ascending(compar, a) && Ascending(compar, b)
    modifies dst
    ensures StablySorted(compar, a + b, dst[lo..hi])
    ensures forall x | 0 <= x < lo || hi <= x < dst.Length :: dst[x] == old(dst[x])
  {
    hide TotalPreorder, Merging, Ascending, StablySorted;
    var i, j, k := MergeBoth(compar, src, dst, lo, m, hi, a, b);
    if j == hi {
      CopyRest(compar, src, dst, lo, k, hi, i, m, a, b, i - lo, j - m);
      k := k + (m - i);
    } else {
      CopyRest(compar, src, dst, lo, k, hi, j, hi, a, b, i - lo, j - m);
      k := k + (hi - j);
    }
    assert k == hi;
    MergeDone(compar, a, b, dst[lo..k]);
  }

  /** Sorting the two halves and merging them stably sorts the whole. */
  lemma HalvesSorted<T(!new)>(compar: (T, T) -> int, s1: seq<T>, s2: seq<T>, t1: seq<T>, t2: seq<T>, t: seq<T>)
    requires StablySorted(compar, s1, t1) && StablySorted(compar, s2, t2) && StablySorted(compar, t1 + t2, t)
    ensures StablySorted(compar, s1 + s2, t)
  {
    forall x ensures Class(compar, t, x) == Class(compar, s1 + s2, x) {
      ClassJoin(compar, t1, t2, x);
      ClassJoin(compar, s1, s2, x);
    }
  }

  lemma ShortSorted<T(!new)>(compar: (T, T) -> int, s: seq<T>)
    requires |s| <= 1
    ensures StablySorted(compar, s, s)
  {
  }

  lemma SortedOf<T(!new)>(compar: (T, T) -> int, s: seq<T>, t: seq<T>)
    requires StablySorted(compar, s, t)
    ensures Ascending(compar, t)
  {
  }

  /** `mergesort_recursive`: the region from `p` to `q` of `src`, which `dest` holds too, is sorted into `dest`;
      at each level the two arrays change roles. */
  method MergesortRecursive<T(!new)>(compar: (T, T) -> int, src: array<T>, p: int, q: int, dest: array<T>)
    requires TotalPreorder(compar) && src != dest && src.Length == dest.Length && 0 <= p <= q + 1 <= src.Length
    requires src[p..q + 1] == dest[p..q + 1]
    modifies src, dest
    ensures StablySorted(compar, old(src[p..q + 1]), dest[p..q + 1])
    ensures forall x | 0 <= x < p || q + 1 <= x < src.Length :: src[x] == old(src[x]) && dest[x] == old(dest[x])
    decreases q - p
  {
    hide TotalPreorder, Ascending, StablySorted;
    ghost var s := src[p..q + 1];
    if p < q {
      var m := p + (q - p) / 2;
      ghost var s1, s2 := src[p..m + 1], src[m + 1..q + 1];
      assert s == s1 + s2;
      SameParts(src[..], dest[..], p, m + 1, q + 1);
      MergesortRecursive(compar, dest, p, m, src);
      ghost var t1 := src[p..m + 1];
      assert src[m + 1..q + 1] == s2 && dest[m + 1..q + 1] == s2;
      m := m + 1;
      MergesortRecursive(compar, dest, m, q, src);
      assert src[p..m] == t1;
      SortedOf(compar, s1, t1);
      SortedOf(compar, s2, src[m..q + 1]);
      ghost var t2 := src[m..q + 1];
      Merge(compar, src, dest, p, m, q + 1, t1, t2);
      HalvesSorted(compar, s1, s2, t1, t2, dest[p..q + 1]);
    } else {
      ShortSorted(compar, s);
    }
  }

  lemma SameParts<T>(a: seq<T>, b: seq<T>, p: int, m: int, q: int)
    requires 0 <= p <= m <= q <= |a| == |b| && a[p..q] == b[p..q]
    ensures a[p..m] == b[p..m] && a[m..q] == b[m..q]
  {
    assert a[p..m] == a[p..q][..m - p] && b[p..m] == b[p..q][..m - p];
    assert a[m..q] == a[p..q][m - p..] && b[m..q] == b[p..q][m - p..];
  }

  /** `mergesort`: the second array starts as a copy, and the result ends in `base`. */
  method Mergesort<T(!new)>(compar: (T, T) -> int, base: array<T>)
    requires TotalPreorder(compar)
    modifies base
    ensures forall i, j | 0 <= i < j < base.Length :: compar(base[i], base[j]) <= 0
    ensures forall x :: Class(compar, base[..], x) == Class(compar, old(base[..]), x)
    ensures multiset(base[..]) == multiset(old(base[..]))
  {
    ghost var s := base[..];
    var nmemb := base.Length;
    var copy := base[..];
    var swap_array := new T[nmemb](i requires 0 <= i < |copy| => copy[i]);
    assert swap_array[..] == copy;
    assert base[0..nmemb] == s && swap_array[0..nmemb] == s;
    MergesortRecursive(compar, swap_array, 0, nmemb - 1, base);
    assert base[0..nmemb] == base[..];
    StablePermutes(compar, s, base[..]);
  }
}

/** Items, the comparator, and the finite ordered map that every dictionary of the library refines. */
module Items {
  import opened Wrappers

  /** An item; `compar` only looks at the key, the payload tells items with equal keys apart. */
  datatype Item = Item(key: int, payload: int)

  /** Largest value of the C `int` that counts the items of a dictionary. */
  const INT_MAX: int := 0x7fff_ffff

  /** Number of entries of the explicit path stacks. */
  const STACK_SIZE: int := 1000

  /** Negative, zero or positive as `a` sorts before, with or after `b`. */
  function Compar(a: Item, b: Item): int {
    a.key - b.key
  }

  /** Strictly increasing keys. */
  ghost predicate Sorted(s: seq<Item>) {
    forall i, j | 0 <= i < j < |s| :: s[i].key < s[j].key
  }

  ghost predicate AllBelow(s: seq<Item>, k: int) {
    forall i | 0 <= i < |s| :: s[i].key < k
  }

  ghost predicate AllAbove(s: seq<Item>, k: int) {
    forall i | 0 <= i < |s| :: k < s[i].key
  }

  type Contents = map<int, Item>

  ghost function MapOf(s: seq<Item>): Contents
    requires Sorted(s)
  {
    map x <- s :: x.key := x
  }

  /** Splits sortedness of `before + [x] + after` at `x`, both ways. */
  lemma SortedAround(before: seq<Item>, x: Item, after: seq<Item>)
    ensures Sorted(before + [x] + after) <==>
            Sorted(before) && Sorted(after) && AllBelow(before, x.key) && AllAbove(after, x.key)
  {
    var s := before + [x] + after;
    if Sorted(s) {
      assert before == s[..|before|] && after == s[|before| + 1..] && s[|before|] == x;
    }
  }

  lemma SortedParts(before: seq<Item>, after: seq<Item>)
    requires Sorted(before + after)
    ensures Sorted(before) && Sorted(after)
  {
    var s := before + after;
    assert before == s[..|before|] && after == s[|before|..];
  }

  lemma SortedJoin(before: seq<Item>, x: Item, after: seq<Item>)
    requires Sorted(before + [x] + after)
    ensures Sorted(before + after)
  {
    SortedAround(before, x, after);
    forall i, j | 0 <= i < j < |before + after|
      ensures (before + after)[i].key < (before + after)[j].key
    {
      if i < |before| <= j {
        assert before[i].key < x.key < after[j - |before|].key;
      }
    }
  }

  /** Inserting one item into a sorted sequence is adding one binding to its map. */
  lemma MapAround(before: seq<Item>, x: Item, after: seq<Item>)
    requires Sorted(before + [x] + after)
    ensures Sorted(before + after)
    ensures x.key !in MapOf(before + after)
    ensures MapOf(before + [x] + after) == MapOf(before + after)[x.key := x]
  {
    SortedJoin(before, x, after);
    SortedAround(before, x, after);
    var s, r := before + [x] + after, before + after;
    forall y | y in r ensures y.key != x.key {
      assert y in before || y in after;
    }
    assert forall y :: y in s <==> y in r || y == x;
  }

  /** A key that falls between two neighbours is bound by neither side. */
  lemma AbsentBetween(before: seq<Item>, k: int, after: seq<Item>)
    requires Sorted(before + after) && AllBelow(before, k) && AllAbove(after, k)
    ensures k !in MapOf(before + after)
  {
    forall y | y in before + after ensures y.key != k {
      assert y in before || y in after;
    }
  }

  /** The keys of a sorted sequence are as many as its items. */
  lemma {:induction false} MapSize(s: seq<Item>)
    requires Sorted(s)
    ensures |MapOf(s)| == |s|
  {
    if s != [] {
      var x, t := s[0], s[1..];
      assert s == [] + [x] + t;
      assert t == [] + t;
      MapAround([], x, t);
      MapSize(t);
      var m := MapOf(t);
      assert MapOf(s) == m[x.key := x];
      assert |m[x.key := x]| == |m| + 1;
    }
  }

  // ---------- The ordered map every dictionary refines ----------

  ghost function Lookup(m: Contents, k: int): Option<Item> {
    if k in m then Some(m[k]) else None
  }

  /** An item whose key is already bound is not inserted. */
  ghost function AfterInsert(m: Contents, x: Item): Contents {
    if x.key in m then m else m[x.key := x]
  }

  ghost predicate IsLeast(m: Contents, x: Item) {
    x.key in m && m[x.key] == x && forall k | k in m :: x.key <= k
  }

  ghost function Least(m: Contents): Option<Item> {
    if x: Item :| IsLeast(m, x) then Some(x) else None
  }

  ghost function AfterDeleteMin(m: Contents): Contents {
    var least := Least(m);
    if least.None? then m else m - {least.value.key}
  }

  lemma PutAndDrop(m: Contents, x: Item)
    requires x.key !in m
    ensures m[x.key := x] - {x.key} == m
  {
  }

  lemma LeastUnique(m: Contents, x: Item)
    requires IsLeast(m, x)
    ensures Least(m) == Some(x)
  {
  }

  lemma FirstIsLeast(s: seq<Item>)
    requires Sorted(s) && s != []
    ensures IsLeast(MapOf(s), s[0])
  {
    assert s[0] in s;
  }

  lemma LeastOfSorted(s: seq<Item>)
    requires Sorted(s)
    ensures Least(MapOf(s)) == if s == [] then None else Some(s[0])
    ensures s != [] ==> Sorted(s[1..]) && AfterDeleteMin(MapOf(s)) == MapOf(s[1..])
    ensures s == [] ==> AfterDeleteMin(MapOf(s)) == MapOf(s)
  {
    if s != [] {
      var x, t := s[0], s[1..];
      FirstIsLeast(s);
      LeastUnique(MapOf(s), x);
      assert s == [] + [x] + t;
      assert t == [] + t;
      hide MapOf, Least, IsLeast;
      MapAround([], x, t);
      PutAndDrop(MapOf(t), x);
    }
  }

  ghost function Pow2(k: nat): nat {
    if k == 0 then 1 else 2 * Pow2(k - 1)
  }

  lemma {:induction false} Pow2Monotone(m: nat, n: nat)
    ensures m <= n ==> Pow2(m) <= Pow2(n)
    decreases n
  {
    if m < n { Pow2Monotone(m, n - 1); }
  }

  lemma Pow2At31()
    ensures Pow2(31) == INT_MAX + 1
  {
    assert Pow2(8) == 256;
    assert Pow2(16) == 65536;
    assert Pow2(24) == 16777216;
  }
}

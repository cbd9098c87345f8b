/** Binary heaps with an index of item positions (italos/lib/bheap.c).  Entries lie in `a[1..n]`, the
    children of position `i` being `2i` and `2i + 1`; sifting moves a hole through the array. */
module BinaryHeap {
  import opened Counting

  datatype Entry = Entry(item: int, key: int)

  // ---------- Heaps with a hole, as values ----------

  /** `p` gives the position of each entry among the first `m`, the one at `hole` left out. */
  ghost predicate Inverse(a: seq<Entry>, p: seq<int>, m: int, hole: int) {
    m < |a| && forall i | 1 <= i <= m && i != hole :: 0 <= a[i].item < |p| && p[a[i].item] == i
  }

  /** No entry has a smaller key than its parent, the hole left out. */
  ghost predicate Ordered(a: seq<Entry>, m: int, hole: int) {
    m < |a| && forall i | 2 <= i <= m && i != hole && i / 2 != hole :: a[i / 2].key <= a[i].key
  }

  /** The children of the hole are in order with its parent. */
  ghost predicate Bridged(a: seq<Entry>, m: int, hole: int) {
    m < |a| && forall i | 2 <= i <= m && i / 2 == hole && hole >= 2 :: a[hole / 2].key <= a[i].key
  }

  /** An entry with key `key` may go into the hole as far as its children are concerned. */
  ghost predicate BelowFits(a: seq<Entry>, m: int, hole: int, key: int) {
    m < |a| && forall i | 2 <= i <= m && i / 2 == hole :: key <= a[i].key
  }

  ghost predicate AboveFits(a: seq<Entry>, hole: int, key: int) {
    hole >= 2 ==> hole < |a| && a[hole / 2].key <= key
  }

  ghost predicate Has(a: seq<Entry>, p: seq<int>, m: int, hole: int, x: int) {
    0 <= x < |p| && 1 <= p[x] <= m < |a| && p[x] != hole && a[p[x]].item == x
  }

  /** The item/key map a heap stands for, the hole left out. */
  ghost function Pairs(a: seq<Entry>, p: seq<int>, m: int, hole: int): map<int, int> {
    map x | 0 <= x < |p| && Has(a, p, m, hole, x) :: a[p[x]].key
  }

  /** The entries themselves are what the map holds. */
  lemma PairsAreEntries(a: seq<Entry>, p: seq<int>, m: int, hole: int, x: int, k: int)
    requires Inverse(a, p, m, hole)
    ensures x in Pairs(a, p, m, hole) && Pairs(a, p, m, hole)[x] == k <==>
            exists i :: 1 <= i <= m && i != hole && a[i] == Entry(x, k)
  {
  }

  /** The entry at `j` moves into the hole, which so moves to `j`. */
  lemma MovePairs(a: seq<Entry>, p: seq<int>, m: int, hole: int, j: int)
    requires Inverse(a, p, m, hole) && 1 <= hole <= m && 1 <= j <= m && j != hole
    ensures var a', p' := a[hole := a[j]], p[a[j].item := hole];
            Inverse(a', p', m, j) && Pairs(a', p', m, j) == Pairs(a, p, m, hole)
  {
    var a', p' := a[hole := a[j]], p[a[j].item := hole];
    forall x ensures Has(a', p', m, j, x) <==> Has(a, p, m, hole, x) {
    }
  }

  /** A parent with a larger key moves down into the hole. */
  lemma ParentDown(a: seq<Entry>, m: int, hole: int, key: int)
    requires Ordered(a, m, hole) && Bridged(a, m, hole) && 2 <= hole <= m && key < a[hole / 2].key
    ensures var a' := a[hole := a[hole / 2]];
            Ordered(a', m, hole / 2) && Bridged(a', m, hole / 2) && BelowFits(a', m, hole / 2, key)
  {
  }

  /** The smaller child moves up into the hole. */
  lemma ChildUp(a: seq<Entry>, m: int, hole: int, k: int, key: int)
    requires Ordered(a, m, hole) && Bridged(a, m, hole) && 1 <= hole && k / 2 == hole && 2 <= k <= m && a[k].key < key
    requires forall i | 2 <= i <= m && i / 2 == hole :: a[k].key <= a[i].key
    ensures var a' := a[hole := a[k]]; Ordered(a', m, k) && Bridged(a', m, k) && AboveFits(a', k, key)
  {
  }

  /** An entry goes into the hole. */
  lemma FillPairs(a: seq<Entry>, p: seq<int>, m: int, hole: int, x: int, k: int)
    requires Inverse(a, p, m, hole) && 1 <= hole <= m && 0 <= x < |p| && x !in Pairs(a, p, m, hole)
    ensures var a', p' := a[hole := Entry(x, k)], p[x := hole];
            Inverse(a', p', m, 0) && Pairs(a', p', m, 0) == Pairs(a, p, m, hole)[x := k]
  {
    var a', p' := a[hole := Entry(x, k)], p[x := hole];
    forall i | 1 <= i <= m && i != hole ensures a[i].item != x {
      assert Has(a, p, m, hole, a[i].item);
    }
    forall y ensures Has(a', p', m, 0, y) <==> Has(a, p, m, hole, y) || y == x {
    }
  }

  lemma FillOrdered(a: seq<Entry>, m: int, hole: int, x: int, k: int)
    requires Ordered(a, m, hole) && 1 <= hole <= m && BelowFits(a, m, hole, k) && AboveFits(a, hole, k)
    ensures Ordered(a[hole := Entry(x, k)], m, 0)
  {
  }

  /** Any position may become a hole; that takes one pair away. */
  lemma OpenHole(a: seq<Entry>, p: seq<int>, m: int, hole: int)
    requires Inverse(a, p, m, 0) && Ordered(a, m, 0) && 1 <= hole <= m
    ensures Inverse(a, p, m, hole) && Ordered(a, m, hole) && Bridged(a, m, hole)
  {
  }

  lemma OpenPairs(a: seq<Entry>, p: seq<int>, m: int, hole: int)
    requires Inverse(a, p, m, 0) && 1 <= hole <= m
    ensures Pairs(a, p, m, hole) == Pairs(a, p, m, 0) - {a[hole].item}
  {
    forall x ensures Has(a, p, m, hole, x) <==> Has(a, p, m, 0, x) && x != a[hole].item {
    }
  }

  /** The last position may be given up; that takes its pair away. */
  lemma DropLast(a: seq<Entry>, p: seq<int>, m: int, hole: int)
    requires Inverse(a, p, m, hole) && Ordered(a, m, hole) && Bridged(a, m, hole) && 1 <= m && hole < m
    ensures Inverse(a, p, m - 1, hole) && Ordered(a, m - 1, hole) && Bridged(a, m - 1, hole)
  {
  }

  lemma DropPairs(a: seq<Entry>, p: seq<int>, m: int, hole: int)
    requires Inverse(a, p, m, hole) && 1 <= m && hole < m
    ensures Pairs(a, p, m - 1, hole) == Pairs(a, p, m, hole) - {a[m].item}
  {
    forall x ensures Has(a, p, m - 1, hole, x) <==> Has(a, p, m, hole, x) && x != a[m].item {
    }
  }

  /** The heap holds as many items as it has entries. */
  lemma {:induction false} PairsSize(a: seq<Entry>, p: seq<int>, m: int)
    requires 0 <= m && Inverse(a, p, m, 0)
    ensures |Pairs(a, p, m, 0)| == m
  {
    if m == 0 {
      assert Pairs(a, p, m, 0) == map[];
    } else {
      PairsSize(a, p, m - 1);
      DropPairs(a, p, m, 0);
      assert Has(a, p, m, 0, a[m].item);
      assert Pairs(a, p, m, 0) == Pairs(a, p, m - 1, 0)[a[m].item := a[m].key];
    }
  }

  lemma {:induction false} RootIsLeast(a: seq<Entry>, m: int, i: int)
    requires Ordered(a, m, 0) && 1 <= i <= m
    ensures a[1].key <= a[i].key
    decreases i
  {
    if i >= 2 { RootIsLeast(a, m, i / 2); }
  }

  ghost function ItemsOf(e: seq<Entry>): seq<int> {
    seq(|e|, i requires 0 <= i < |e| => e[i].item)
  }

  // ---------- The heap ----------

  class BHeap {
    const a: array<Entry>
    const p: array<int>
    var n: int
    var key_comps: int

    /** An empty heap for the items 0 .. size - 1. */
    constructor (size: nat)
      ensures Valid() && Contents() == map[] && p.Length == size && fresh(a) && fresh(p)
    {
      a := new Entry[size + 1](_ => Entry(0, 0));
      p := new int[size](_ => 0);
      n, key_comps := 0, 0;
    }

    ghost predicate Valid()
      reads this`n, a, p
    {
      a.Length == p.Length + 1 && 0 <= n <= p.Length && Inverse(a[..], p[..], n, 0) && Ordered(a[..], n, 0)
    }

    ghost function Contents(): map<int, int>
      reads this`n, a, p
    {
      Pairs(a[..], p[..], n, 0)
    }

    /** An item not in the heap finds room in it. */
    lemma HasRoom(item: int)
      requires Valid() && 0 <= item < p.Length && item !in Contents()
      ensures n < p.Length
    {
      var e := a[1..n + 1];
      var s := ItemsOf(e);
      assert forall i | 0 <= i < n :: s[i] == a[..][i + 1].item;
      forall i, j | 0 <= i < j < n ensures s[i] != s[j] {
        assert p[..][s[i]] == i + 1 && p[..][s[j]] == j + 1;
      }
      forall i | 0 <= i < n ensures s[i] != item && 0 <= s[i] < p.Length {
        assert Has(a[..], p[..], n, 0, s[i]);
        assert s[i] in Contents();
      }
      Pigeonhole(s + [item], p.Length);
    }

    /** An item with a least key. */
    method Min() returns (item: int)
      requires Valid() && n > 0
      ensures item in Contents() && forall x | x in Contents() :: Contents()[item] <= Contents()[x]
    {
      item := a[1].item;
      assert a[..][1] == a[1];
      assert Has(a[..], p[..], n, 0, item);
      forall x | x in Contents() ensures Contents()[item] <= Contents()[x] {
        RootIsLeast(a[..], n, p[x]);
      }
    }

    /** `bh_insert`: the hole at position n + 1 rises until `item` fits.  The rest of the array, up to
        `m`, need not end there: `Delete` and `DecreaseKey` set `n` back to insert in the middle. */
    method InsertAt(item: int, key: int, ghost m: int)
      requires a.Length == p.Length + 1 && 1 <= n + 1 <= m <= p.Length
      requires Inverse(a[..], p[..], m, n + 1) && Ordered(a[..], m, n + 1) && Bridged(a[..], m, n + 1)
      requires BelowFits(a[..], m, n + 1, key)
      requires 0 <= item < p.Length && item !in Pairs(a[..], p[..], m, n + 1)
      modifies this`n, this`key_comps, a, p
      ensures n == old(n) + 1 && Inverse(a[..], p[..], m, 0) && Ordered(a[..], m, 0)
      ensures Pairs(a[..], p[..], m, 0) == old(Pairs(a[..], p[..], m, n + 1))[item := key]
    {
      hide Inverse, Ordered, Bridged, BelowFits, Pairs;
      n := n + 1;
      var i := n;
      while i >= 2
        invariant 1 <= i <= m && n == old(n) + 1
        invariant Inverse(a[..], p[..], m, i) && Ordered(a[..], m, i) && Bridged(a[..], m, i)
        invariant BelowFits(a[..], m, i, key)
        invariant Pairs(a[..], p[..], m, i) == old(Pairs(a[..], p[..], m, n + 1))
      {
        var j := i / 2;
        var y := a[j];
        key_comps := key_comps + 1;
        if key >= y.key {
          break;
        }
        ghost var a0, p0 := a[..], p[..];
        EntryIn(a0, p0, m, i, j);
        MovePairs(a0, p0, m, i, j);
        ParentDown(a0, m, i, key);
        a[i] := y;
        p[y.item] := i;
        assert a[..] == a0[i := a0[j]] && p[..] == p0[a0[j].item := i];
        i := j;
      }
      ghost var a0, p0 := a[..], p[..];
      FillPairs(a0, p0, m, i, item, key);
      FillOrdered(a0, m, i, item, key);
      a[i] := Entry(item, key);
      p[item] := i;
      assert a[..] == a0[i := Entry(item, key)] && p[..] == p0[item := i];
    }

    lemma EntryIn(a: seq<Entry>, p: seq<int>, m: int, hole: int, j: int)
      requires Inverse(a, p, m, hole) && 1 <= j <= m && j != hole
      ensures 0 <= a[j].item < |p| && p[a[j].item] == j
    {
    }

    method Insert(item: int, key: int)
      requires Valid() && 0 <= item < p.Length && item !in Contents()
      modifies this`n, this`key_comps, a, p
      ensures Valid() && Contents() == old(Contents())[item := key]
    {
      HasRoom(item);
      NewLast(key);
      InsertAt(item, key, n + 1);
    }

    /** One position more, as a hole. */
    lemma NewLast(key: int)
      requires Valid() && n < p.Length
      ensures Inverse(a[..], p[..], n + 1, n + 1) && Ordered(a[..], n + 1, n + 1) && Bridged(a[..], n + 1, n + 1)
      ensures BelowFits(a[..], n + 1, n + 1, key)
      ensures Pairs(a[..], p[..], n + 1, n + 1) == Contents()
    {
      forall x ensures Has(a[..], p[..], n + 1, n + 1, x) <==> Has(a[..], p[..], n, 0, x) {
      }
    }

    /** `bh_siftup`: the entry at `top` sinks below the smaller children up to position `q`. */
    method SiftUp(top: int, q: int)
      requires a.Length == p.Length + 1 && 1 <= top <= q <= p.Length
      requires Inverse(a[..], p[..], q, 0) && Ordered(a[..], q, top) && Bridged(a[..], q, top)
      requires AboveFits(a[..], top, a[top].key)
      modifies this`key_comps, a, p
      ensures Inverse(a[..], p[..], q, 0) && Ordered(a[..], q, 0)
      ensures Pairs(a[..], p[..], q, 0) == old(Pairs(a[..], p[..], q, 0))
    {
      hide Inverse, Ordered, Bridged, BelowFits, Pairs, AboveFits;
      ghost var a1, p1 := a[..], p[..];
      var y := a[top];
      var j, k := top, 2 * top;
      Lift(a1, p1, q, top);
      NoChildren(a1, q, top, y.key);
      while k <= q
        invariant 1 <= j <= q && k == 2 * j
        invariant Inverse(a[..], p[..], q, j) && Ordered(a[..], q, j) && Bridged(a[..], q, j) &&
                  AboveFits(a[..], j, y.key)
        invariant Pairs(a[..], p[..], q, j) == Pairs(a1, p1, q, top)
        invariant BelowFits(a[..], q, j, y.key) || k <= q
        decreases q - j
      {
        var z := a[k];
        if k < q {
          key_comps := key_comps + 1;
          if z.key > a[k + 1].key {
            k := k + 1;
            z := a[k];
          }
        }
        ghost var a0, p0 := a[..], p[..];
        SmallerChild(a0, q, j, k);
        if y.key <= z.key {
          break;
        }
        EntryIn(a0, p0, q, j, k);
        MovePairs(a0, p0, q, j, k);
        ChildUp(a0, q, j, k, y.key);
        a[j] := z;
        p[z.item] := j;
        assert a[..] == a0[j := a0[k]] && p[..] == p0[a0[k].item := j];
        j := k;
        k := 2 * j;
        NoChildren(a[..], q, j, y.key);
      }
      ghost var a0, p0 := a[..], p[..];
      FillPairs(a0, p0, q, j, y.item, y.key);
      FillOrdered(a0, q, j, y.item, y.key);
      a[j] := y;
      p[y.item] := j;
      assert a[..] == a0[j := y] && p[..] == p0[y.item := j];
    }

    /** The entry at `top` taken out of the array. */
    lemma Lift(a: seq<Entry>, p: seq<int>, q: int, top: int)
      requires Inverse(a, p, q, 0) && 1 <= top <= q
      ensures Inverse(a, p, q, top) && 0 <= a[top].item < |p| && a[top].item !in Pairs(a, p, q, top)
      ensures Pairs(a, p, q, top)[a[top].item := a[top].key] == Pairs(a, p, q, 0)
    {
      forall x ensures Has(a, p, q, top, x) <==> Has(a, p, q, 0, x) && x != a[top].item {
      }
    }

    lemma SmallerChild(a: seq<Entry>, q: int, j: int, k: int)
      requires 1 <= j && 2 * j <= k <= 2 * j + 1 && k <= q < |a|
      requires a[k].key <= a[2 * j].key && (2 * j + 1 <= q ==> a[k].key <= a[2 * j + 1].key)
      ensures k / 2 == j && forall i | 2 <= i <= q && i / 2 == j :: a[k].key <= a[i].key
      ensures forall key | key <= a[k].key :: BelowFits(a, q, j, key)
    {
    }

    lemma NoChildren(a: seq<Entry>, q: int, j: int, key: int)
      requires q < |a|
      ensures q < 2 * j ==> BelowFits(a, q, j, key)
    {
    }

    /** The last entry goes to position `pos`, where it is not too small, and sinks. */
    method SinkLast(pos: int)
      requires a.Length == p.Length + 1 && 1 <= pos <= n < p.Length && a[pos].key <= a[n + 1].key
      requires Inverse(a[..], p[..], n + 1, 0) && Ordered(a[..], n + 1, 0)
      modifies this`key_comps, a, p
      ensures Valid() && Contents() == old(Pairs(a[..], p[..], n + 1, 0)) - {old(a[pos].item)}
    {
      hide Inverse, Ordered, Bridged, BelowFits, Pairs, AboveFits;
      ghost var a0, p0, m := a[..], p[..], n + 1;
      OpenHole(a0, p0, m, pos);
      DropLast(a0, p0, m, pos);
      LastEntry(a0, p0, m, pos);
      SinkFits(a0, p0, m, pos);
      FillPairs(a0, p0, n, pos, a0[m].item, a0[m].key);
      a[pos] := a[n + 1];
      p[a[pos].item] := pos;
      assert a[..] == a0[pos := a0[m]] && p[..] == p0[a0[m].item := pos];
      SiftUp(pos, n);
    }

    /** The last entry goes to position `pos`, where it is too small, and rises. */
    method RiseLast(pos: int)
      requires a.Length == p.Length + 1 && 1 <= pos <= n < p.Length && a[n + 1].key < a[pos].key
      requires Inverse(a[..], p[..], n + 1, 0) && Ordered(a[..], n + 1, 0)
      modifies this`n, this`key_comps, a, p
      ensures Valid() && Contents() == old(Pairs(a[..], p[..], n + 1, 0)) - {old(a[pos].item)}
    {
      hide Inverse, Ordered, Bridged, BelowFits, Pairs, AboveFits;
      ghost var a0, p0, m := a[..], p[..], n + 1;
      OpenHole(a0, p0, m, pos);
      DropLast(a0, p0, m, pos);
      LastEntry(a0, p0, m, pos);
      RiseFits(a0, m, pos);
      var size := n;
      n := pos - 1;
      InsertAt(a[size + 1].item, a[size + 1].key, size);
      n := size;
    }

    /** `bh_delete`: the last entry takes the place of `item` and sinks or rises from there. */
    method Delete(item: int)
      requires Valid() && item in Contents()
      modifies this`n, this`key_comps, a, p
      ensures Valid() && Contents() == old(Contents()) - {item}
    {
      hide Inverse, Ordered, Bridged, BelowFits, Pairs, AboveFits;
      AtItem(item);
      n := n - 1;
      var pos := p[item];
      if pos <= n {
        key_comps := key_comps + 1;
        if a[pos].key <= a[n + 1].key {
          SinkLast(pos);
        } else {
          RiseLast(pos);
        }
      } else {
        OpenHole(a[..], p[..], n + 1, n + 1);
        DropLast(a[..], p[..], n + 1, 0);
        DropPairs(a[..], p[..], n + 1, 0);
      }
    }

    lemma AtItem(item: int)
      requires Valid() && item in Contents()
      ensures 0 <= item < p.Length && 1 <= p[item] <= n && a[p[item]].item == item
      ensures Contents()[item] == a[p[item]].key
    {
    }

    /** The last entry, held out while the hole is elsewhere. */
    lemma LastEntry(a: seq<Entry>, p: seq<int>, m: int, hole: int)
      requires Inverse(a, p, m, 0) && 1 <= hole < m
      ensures 0 <= a[m].item < |p| && a[m].item !in Pairs(a, p, m - 1, hole) && a[m].item != a[hole].item
      ensures Pairs(a, p, m - 1, hole)[a[m].item := a[m].key] == Pairs(a, p, m, 0) - {a[hole].item}
    {
      forall x ensures Has(a, p, m, 0, x) && x != a[hole].item <==> Has(a, p, m - 1, hole, x) || x == a[m].item {
      }
    }

    lemma SinkFits(a: seq<Entry>, p: seq<int>, m: int, pos: int)
      requires Ordered(a, m, 0) && Bridged(a, m - 1, pos) && Ordered(a, m - 1, pos) && 1 <= pos < m &&
               a[pos].key <= a[m].key
      ensures var a' := a[pos := a[m]];
              Ordered(a', m - 1, pos) && Bridged(a', m - 1, pos) &&
              AboveFits(a', pos, a'[pos].key)
    {
    }

    lemma RiseFits(a: seq<Entry>, m: int, pos: int)
      requires Ordered(a, m, 0) && 1 <= pos < m && a[m].key < a[pos].key
      ensures BelowFits(a, m - 1, pos, a[m].key)
    {
    }

    /** `bh_decrease_key`: `item`, with its smaller key, rises from where it is. */
    method DecreaseKey(item: int, new_key: int)
      requires Valid() && item in Contents() && new_key <= Contents()[item]
      modifies this`n, this`key_comps, a, p
      ensures Valid() && Contents() == old(Contents())[item := new_key]
    {
      hide Inverse, Ordered, Bridged, BelowFits, AboveFits, Pairs;
      ghost var a0, p0, pairs := a[..], p[..], Contents();
      AtItem(item);
      assert (pairs - {item})[item := new_key] == pairs[item := new_key];
      var size := n;
      n := p[item] - 1;
      OpenHole(a0, p0, size, p[item]);
      OpenPairs(a0, p0, size, p[item]);
      Lower(a0, size, p[item], new_key);
      InsertAt(item, new_key, size);
      n := size;
    }

    lemma Lower(a: seq<Entry>, m: int, hole: int, key: int)
      requires 1 <= hole <= m < |a| && Ordered(a, m, 0) && key <= a[hole].key
      ensures BelowFits(a, m, hole, key)
    {
    }

    /** `_bh_delete_min`. */
    method DeleteMin() returns (v: int)
      requires Valid() && n > 0
      modifies this`n, this`key_comps, a, p
      ensures Valid() && v in old(Contents()) && Contents() == old(Contents()) - {v}
      ensures forall x | x in old(Contents()) :: old(Contents())[v] <= old(Contents())[x]
    {
      v := Min();
      Delete(v);
    }

    /** `_bh_n`: the heap is empty exactly when its map is. */
    method Count() returns (count: int)
      requires Valid()
      ensures count == |Contents()| == n
    {
      PairsSize(a[..], p[..], n);
      count := n;
    }
  }
}

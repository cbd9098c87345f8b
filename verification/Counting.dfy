/** Counting distinct elements. */
module Counting {
  lemma {:induction false} RangeSize(size: nat, s: set<int>)
    requires forall x | x in s :: 0 <= x < size
    ensures |s| <= size
  {
    if size > 0 {
      var t := s - {size - 1};
      RangeSize(size - 1, t);
      assert s <= t + {size - 1};
      if size - 1 in s { assert s == t + {size - 1}; } else { assert s == t; }
    } else {
      forall x ensures x !in s {
      }
      assert s == {};
    }
  }

  lemma {:induction false} DistinctSize(s: seq<int>)
    requires forall i, j | 0 <= i < j < |s| :: s[i] != s[j]
    ensures |set x | x in s| == |s|
  {
    if s != [] {
      var t, y := s[..|s| - 1], s[|s| - 1];
      DistinctSize(t);
      assert (set x | x in s) == (set x | x in t) + {y};
    }
  }

  /** Pigeonhole: distinct numbers below `size` are at most `size` many. */
  lemma Pigeonhole(s: seq<int>, size: nat)
    requires forall i, j | 0 <= i < j < |s| :: s[i] != s[j]
    requires forall i | 0 <= i < |s| :: 0 <= s[i] < size
    ensures |s| <= size
  {
    DistinctSize(s);
    RangeSize(size, set x | x in s);
  }

  /** An element of a list without repetition is in its multiset once. */
  lemma {:induction false} CountIn<T>(s: seq<T>, x: T)
    requires forall i, j | 0 <= i < j < |s| :: s[i] != s[j]
    ensures multiset(s)[x] == if x in s then 1 else 0
  {
    if s != [] {
      CountIn(s[1..], x);
      assert s == [s[0]] + s[1..];
    }
  }

  /** Two lists of the same elements, none repeated, hold the same multiset. */
  lemma SameMembers<T>(s: seq<T>, t: seq<T>)
    requires forall i, j | 0 <= i < j < |s| :: s[i] != s[j]
    requires forall i, j | 0 <= i < j < |t| :: t[i] != t[j]
    requires forall x :: x in s <==> x in t
    ensures multiset(s) == multiset(t)
  {
    forall x ensures multiset(s)[x] == multiset(t)[x] {
      CountIn(s, x);
      CountIn(t, x);
    }
  }
}

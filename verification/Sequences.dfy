/** What sequences hold, and how concatenations regroup. */
module Sequences {
  ghost function Range<T>(s: seq<T>): set<T> {
    set x | x in s
  }

  lemma Associative<T>(a: seq<T>, b: seq<T>, c: seq<T>)
    ensures a + (b + c) == a + b + c
  {
  }

  lemma Empty<T>(s: seq<T>)
    ensures s + [] == s == [] + s
  {
  }

  lemma GroupRight<T>(b: seq<T>, i: seq<T>, x: seq<T>, y: seq<T>, z: seq<T>, w: seq<T>)
    ensures b + (i + x) + ((y + z) + w) == b + i + ((x + y + z) + w)
    ensures z == [] ==> b + (i + x + y) + w == b + i + ((x + y) + w)
  {
  }

  lemma GroupLeft<T>(b: seq<T>, x: seq<T>, y: seq<T>, z: seq<T>, i: seq<T>, w: seq<T>)
    ensures b + (x + y) + (z + i) + w == b + (x + y + z) + i + w
    ensures i == [] ==> b + (x + y + z) + w == b + (x + y) + z + w
  {
  }

  lemma GroupWithout<T>(b: seq<T>, l: seq<T>, m: seq<T>, r: seq<T>, e: seq<T>)
    ensures b + (m + r) + e == b + (m + r + e)
    ensures b + (l + r) + e == (b + l) + (r + e)
  {
  }

  lemma GroupPromoted<T>(b: seq<T>, l: seq<T>, m: seq<T>, r: seq<T>, a: seq<T>, e: seq<T>)
    ensures b + (l + m) + [] + r + (a + e) == b + l + (m + r + a + e)
  {
  }
}

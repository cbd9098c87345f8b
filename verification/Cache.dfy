/** The sector cache (cheapos/cache.c). */
module SectorCache {

  const CACHE_MAXACCESSI: int := 1024

  /** The bytes of a sector. */
  type Image = seq<int>

  /** An empty slot has lba and access count -1. */
  datatype Slot = Slot(lba: int, accessi: int, image: Image)

  ghost predicate Occupied(e: Slot) {
    e.lba >= 0
  }

  ghost predicate SlotOk(e: Slot) {
    if Occupied(e) then 0 <= e.accessi <= CACHE_MAXACCESSI else e.lba == -1 && e.accessi == -1
  }

  /** All slots in order, and no sector in two of them. */
  ghost predicate SlotsOk(s: seq<Slot>) {
    (forall i | 0 <= i < |s| :: SlotOk(s[i])) &&
    forall i, j | 0 <= i < j < |s| && Occupied(s[i]) && Occupied(s[j]) :: s[i].lba != s[j].lba
  }

  ghost function Count(s: seq<Slot>): nat {
    if s == [] then 0 else Count(s[..|s| - 1]) + if Occupied(s[|s| - 1]) then 1 else 0
  }

  /** Which sectors are cached, with their images. */
  ghost function Cached(s: seq<Slot>): map<int, Image>
    requires SlotsOk(s)
  {
    map e | e in s && Occupied(e) :: e.lba := e.image
  }

  lemma {:induction false} CountUpdate(s: seq<Slot>, i: nat, e: Slot)
    requires i < |s|
    ensures Count(s[i := e]) == Count(s) - (if Occupied(s[i]) then 1 else 0) + if Occupied(e) then 1 else 0
  {
    var n := |s| - 1;
    if i == n {
      assert s[i := e][..n] == s[..n];
    } else {
      CountUpdate(s[..n], i, e);
      assert s[i := e][..n] == s[..n][i := e];
    }
  }

  lemma {:induction false} NoneOccupied(s: seq<Slot>)
    requires forall i | 0 <= i < |s| :: !Occupied(s[i])
    ensures Count(s) == 0
  {
    if s != [] { NoneOccupied(s[..|s| - 1]); }
  }

  lemma CachedAt(s: seq<Slot>, i: nat)
    requires SlotsOk(s) && i < |s| && Occupied(s[i])
    ensures s[i].lba in Cached(s) && Cached(s)[s[i].lba] == s[i].image
  {
    assert s[i] in s;
  }

  lemma CachedFrom(s: seq<Slot>, x: int) returns (i: nat)
    requires SlotsOk(s) && x in Cached(s)
    ensures i < |s| && Occupied(s[i]) && s[i].lba == x && Cached(s)[x] == s[i].image
  {
    i :| i < |s| && Occupied(s[i]) && s[i].lba == x;
    CachedAt(s, i);
  }

  /** The cache holds exactly `m` when every slot's image is in `m` and every sector of `m` has a slot. */
  lemma CachedIs(s: seq<Slot>, m: map<int, Image>)
    requires SlotsOk(s)
    requires forall i | 0 <= i < |s| && Occupied(s[i]) :: s[i].lba in m && m[s[i].lba] == s[i].image
    requires forall x | x in m :: exists i :: 0 <= i < |s| && Occupied(s[i]) && s[i].lba == x
    ensures Cached(s) == m
  {
    hide Cached, SlotsOk;
    forall x | x in Cached(s) ensures x in m && Cached(s)[x] == m[x] {
      var i := CachedFrom(s, x);
    }
    forall x | x in m ensures x in Cached(s) {
      var i :| 0 <= i < |s| && Occupied(s[i]) && s[i].lba == x;
      CachedAt(s, i);
    }
  }

  /** No other slot holds the sector of slot `i`. */
  lemma Alone(s: seq<Slot>, i: nat)
    requires SlotsOk(s) && i < |s| && Occupied(s[i])
    ensures forall j | 0 <= j < |s| && j != i && Occupied(s[j]) :: s[j].lba != s[i].lba
  {
  }

  /** Slot `i` gets another image or access count for the same sector. */
  lemma SameSector(s: seq<Slot>, i: nat, e: Slot)
    requires SlotsOk(s) && i < |s| && Occupied(s[i]) && SlotOk(e) && e.lba == s[i].lba
    ensures SlotsOk(s[i := e]) && Cached(s[i := e]) == Cached(s)[e.lba := e.image]
  {
    hide Cached;
    var t, m := s[i := e], Cached(s)[e.lba := e.image];
    assert SlotsOk(t);
    Alone(s, i);
    hide SlotsOk;
    forall j | 0 <= j < |t| && Occupied(t[j]) ensures t[j].lba in m && m[t[j].lba] == t[j].image {
      if j != i { CachedAt(s, j); }
    }
    forall x | x in m ensures exists j :: 0 <= j < |t| && Occupied(t[j]) && t[j].lba == x {
      if x == e.lba {
        assert Occupied(t[i]) && t[i].lba == x;
      } else {
        var j := CachedFrom(s, x);
        assert Occupied(t[j]) && t[j].lba == x;
      }
    }
    CachedIs(t, m);
  }

  /** Slot `i` is given to a sector not cached so far; what it held, if anything, is evicted. */
  lemma NewSector(s: seq<Slot>, i: nat, e: Slot)
    requires SlotsOk(s) && i < |s| && Occupied(e) && SlotOk(e) && e.lba !in Cached(s)
    ensures SlotsOk(s[i := e]) && Cached(s[i := e]) == (Cached(s) - {s[i].lba})[e.lba := e.image]
  {
    hide Cached;
    var t, m := s[i := e], (Cached(s) - {s[i].lba})[e.lba := e.image];
    forall j | 0 <= j < |s| && Occupied(s[j]) ensures s[j].lba != e.lba && (j == i || s[j].lba != s[i].lba) {
      CachedAt(s, j);
    }
    assert SlotsOk(t);
    hide SlotsOk;
    forall j | 0 <= j < |t| && Occupied(t[j]) ensures t[j].lba in m && m[t[j].lba] == t[j].image {
      if j != i { CachedAt(s, j); }
    }
    forall x | x in m ensures exists j :: 0 <= j < |t| && Occupied(t[j]) && t[j].lba == x {
      if x == e.lba {
        assert Occupied(t[i]) && t[i].lba == x;
      } else {
        var j := CachedFrom(s, x);
        assert Occupied(t[j]) && t[j].lba == x;
      }
    }
    CachedIs(t, m);
  }

  /** The number of occupied slots is the number of sectors cached. */
  lemma {:induction false} CountIsSize(s: seq<Slot>)
    requires SlotsOk(s)
    ensures Count(s) == |Cached(s)|
  {
    if s == [] {
    } else {
      var r, e := s[..|s| - 1], s[|s| - 1];
      assert SlotsOk(r);
      CountIsSize(r);
      LastSlot(s);
    }
  }

  lemma LastSlot(s: seq<Slot>)
    requires s != [] && SlotsOk(s) && SlotsOk(s[..|s| - 1])
    ensures var r, e := s[..|s| - 1], s[|s| - 1];
      if Occupied(e) then e.lba !in Cached(r) && Cached(s) == Cached(r)[e.lba := e.image] else Cached(s) == Cached(r)
  {
    var r, e := s[..|s| - 1], s[|s| - 1];
    if Occupied(e) { Alone(s, |s| - 1); }
    hide Cached, SlotsOk;
    if Occupied(e) && e.lba in Cached(r) {
      var j := CachedFrom(r, e.lba);
      assert false;
    }
    var m := if Occupied(e) then Cached(r)[e.lba := e.image] else Cached(r);
    forall j | 0 <= j < |s| && Occupied(s[j]) ensures s[j].lba in m && m[s[j].lba] == s[j].image {
      if j < |r| {
        assert r[j] == s[j];
        CachedAt(r, j);
      }
    }
    forall x | x in m ensures exists j :: 0 <= j < |s| && Occupied(s[j]) && s[j].lba == x {
      if Occupied(e) && x == e.lba {
        assert s[|s| - 1].lba == x;
      } else {
        var j := CachedFrom(r, x);
        assert Occupied(s[j]) && s[j].lba == x;
      }
    }
    CachedIs(s, m);
  }

  /** One more access, halved (rounding down) when it would pass the limit. */
  function Accessed(accessi: nat): (r: nat)
    requires accessi <= CACHE_MAXACCESSI
    ensures r <= 1024 && (accessi < 1024 ==> r == accessi + 1)
    ensures accessi == 1024 ==> 2 * r <= accessi + 1 < 2 * r + 2
  {
    if accessi + 1 > CACHE_MAXACCESSI then (accessi + 1) / 2 else accessi + 1
  }

  class Cache {
    const block: array<Slot>
    var misscount: int
    var hitcount: int
    var cachedblocknum: int

    /** For each sector the image inserted last, since the cache was cleared. */
    ghost var inserted: map<int, Image>

    /** `cache_init`, once the memory is there. */
    constructor (maxblocknum: nat)
      requires maxblocknum >= 1
      ensures Valid() && fresh(block) && block.Length == maxblocknum && Cached(block[..]) == map[] && inserted == map[]
      ensures misscount == hitcount == cachedblocknum == 0
    {
      block := new Slot[maxblocknum](_ => Slot(-1, -1, []));
      misscount, hitcount, cachedblocknum, inserted := 0, 0, 0, map[];
      new;
      NoneOccupied(block[..]);
    }

    /** No sector twice, the right count, and every image cached is the one inserted last. */
    ghost predicate Valid()
      reads this, block
    {
      block.Length >= 1 && SlotsOk(block[..]) && cachedblocknum == Count(block[..]) &&
      forall x | x in Cached(block[..]) :: x in inserted && Cached(block[..])[x] == inserted[x]
    }

    /** `cache_clear`. */
    method Clear()
      requires block.Length >= 1
      modifies this, block
      ensures Valid() && Cached(block[..]) == map[] && inserted == map[] && misscount == hitcount == cachedblocknum == 0
    {
      misscount, hitcount, cachedblocknum, inserted := 0, 0, 0, map[];
      for i := 0 to block.Length
        invariant forall j | 0 <= j < i :: block[j].lba == -1 && block[j].accessi == -1
        invariant misscount == hitcount == cachedblocknum == 0 && inserted == map[]
      {
        block[i] := block[i].(lba := -1, accessi := -1);
      }
      NoneOccupied(block[..]);
    }

    /** `cache_findcopy`: finds the sector exactly when it is cached, and then gives the image inserted last. */
    method FindCopy(lba: int) returns (hit: bool, image: Image)
      requires Valid() && lba >= 0
      modifies this`misscount, this`hitcount, block
      ensures Valid() && Cached(block[..]) == old(Cached(block[..]))
      ensures hit <==> lba in Cached(block[..])
      ensures hit ==> lba in inserted && image == inserted[lba]
      ensures hitcount + misscount == old(hitcount + misscount) + 1 && (hit <==> hitcount == old(hitcount) + 1)
      ensures forall j | 0 <= j < block.Length ::
                block[j] == if old(block[j]).lba == lba then old(block[j]).(accessi := Accessed(old(block[j]).accessi))
                            else old(block[j])
    {
      hide Cached, SlotsOk, Count;
      ghost var s := block[..];
      image := [];
      for i := 0 to block.Length
        invariant block[..] == s && hitcount == old(hitcount) && misscount == old(misscount)
        invariant forall j | 0 <= j < i :: s[j].lba != lba
      {
        assert s[i] == block[i];
        if block[i].lba == lba {
          AtSlot(s, i);
          Alone(s, i);
          image := block[i].image;
          var accessi := block[i].accessi + 1;
          if accessi > CACHE_MAXACCESSI {
            accessi := accessi / 2;
          }
          ghost var e := s[i].(accessi := accessi);
          SameSector(s, i, e);
          CountUpdate(s, i, e);
          block[i] := block[i].(accessi := accessi);
          assert block[..] == s[i := e];
          hitcount := hitcount + 1;
          return true, image;
        }
      }
      NotThere(s, lba);
      misscount := misscount + 1;
      hit := false;
    }

    lemma AtSlot(s: seq<Slot>, i: nat)
      requires SlotsOk(s) && i < |s|
      ensures SlotOk(s[i]) && (Occupied(s[i]) ==> s[i].lba in Cached(s) && Cached(s)[s[i].lba] == s[i].image)
    {
      if Occupied(s[i]) { CachedAt(s, i); }
    }

    lemma NotThere(s: seq<Slot>, lba: int)
      requires SlotsOk(s) && lba >= 0 && forall j | 0 <= j < |s| :: s[j].lba != lba
      ensures lba !in Cached(s)
    {
    }

    /** The slot a new sector goes to: the first empty one if there is one, else the first of those with the fewest
        accesses. */
    method Choose() returns (posto: int)
      requires Valid()
      ensures 0 <= posto < block.Length
      ensures Occupied(block[posto]) ==>
                forall j | 0 <= j < block.Length :: Occupied(block[j]) && block[posto].accessi <= block[j].accessi
      ensures forall j | 0 <= j < posto :: block[posto].accessi < block[j].accessi && Occupied(block[j])
    {
      assert forall j | 0 <= j < block.Length :: SlotOk(block[..][j]);
      posto := 0;
      for i := 0 to block.Length
        invariant 0 <= posto < block.Length && posto <= i
        invariant forall j | 0 <= j < i :: block[posto].accessi <= block[j].accessi
        invariant forall j | 0 <= j < posto :: block[posto].accessi < block[j].accessi
      {
        if block[i].accessi < block[posto].accessi {
          posto := i;
          if block[posto].accessi < 0 {
            return;
          }
        }
      }
    }

    /** `cache_insertrefresh`: tells whether the sector was new; a new one takes the slot chosen. */
    method InsertRefresh(lba: int, buffer: Image) returns (is_new: bool, ghost posto: int)
      requires Valid() && lba >= 0
      modifies this`cachedblocknum, this`inserted, block
      ensures Valid() && inserted == old(inserted)[lba := buffer] && (is_new <==> lba !in old(Cached(block[..])))
      ensures !is_new ==>
                Cached(block[..]) == old(Cached(block[..]))[lba := buffer] && cachedblocknum == old(cachedblocknum) &&
                forall j | 0 <= j < block.Length ::
                  block[j] == if old(block[j]).lba == lba then old(block[j]).(image := buffer) else old(block[j])
      ensures is_new ==>
                0 <= posto < block.Length &&
                Cached(block[..]) == (old(Cached(block[..])) - {old(block[..])[posto].lba})[lba := buffer] &&
                block[..] == old(block[..])[posto := Slot(lba, 0, buffer)] &&
                (Occupied(old(block[..])[posto]) ==>
                   forall j | 0 <= j < block.Length ::
                     Occupied(old(block[..])[j]) && old(block[..])[posto].accessi <= old(block[..])[j].accessi) &&
                forall j | 0 <= j < posto ::
                  Occupied(old(block[..])[j]) && old(block[..])[posto].accessi < old(block[..])[j].accessi
    {
      hide Cached, SlotsOk, Count;
      ghost var s := block[..];
      posto := -1;
      for i := 0 to block.Length
        invariant block[..] == s && inserted == old(inserted) && cachedblocknum == old(cachedblocknum) && Valid()
        invariant forall j | 0 <= j < i :: s[j].lba != lba
      {
        assert s[i] == block[i];
        if block[i].lba == lba {
          AtSlot(s, i);
          Alone(s, i);
          ghost var e := s[i].(image := buffer);
          SameSector(s, i, e);
          CountUpdate(s, i, e);
          block[i] := block[i].(image := buffer);
          inserted := inserted[lba := buffer];
          assert block[..] == s[i := e];
          is_new := false;
          return;
        }
      }
      NotThere(s, lba);
      var place := Choose();
      posto := place;
      assert forall j | 0 <= j < block.Length :: s[j] == block[j];
      ghost var e := Slot(lba, 0, buffer);
      NewSector(s, place, e);
      CountUpdate(s, place, e);
      if block[place].lba < 0 {
        cachedblocknum := cachedblocknum + 1;
      }
      block[place] := Slot(lba, 0, buffer);
      inserted := inserted[lba := buffer];
      assert block[..] == s[place := e];
      is_new := true;
    }
  }
}

/** Entries of a 12 bit file allocation table on disk (ItaliOs-distmiki-current/tools/fat12.c): entry c lies
    in the bytes c + c / 2 and c + c / 2 + 1, which may fall into two sectors. */
module Fat12Entries {

  type Byte = x: int | 0 <= x < 256

  const SECTOR: int := 512

  /** The sectors of a disk; the file allocation table starts with sector 1. */
  type Sectors = seq<seq<Byte>>

  ghost predicate IsDisk(d: Sectors) {
    |d| >= 1 && forall n | 0 <= n < |d| :: |d[n]| == SECTOR
  }

  // ---------- The table, as one sequence of bytes ----------

  ghost function TableBytes(d: Sectors): (f: seq<Byte>)
    requires IsDisk(d)
    ensures |f| == (|d| - 1) * SECTOR
  {
    seq((|d| - 1) * SECTOR, k requires 0 <= k < (|d| - 1) * SECTOR => d[1 + k / SECTOR][k % SECTOR])
  }

  /** First byte of entry `c`. */
  function Place(c: int): (k: int)
    requires c >= 2
    ensures k >= 3
  {
    c + c / 2
  }

  /** The 16 bit word at byte `k`, low byte first. */
  ghost function Word(f: seq<Byte>, k: int): (w: int)
    requires 0 <= k && k + 1 < |f|
    ensures 0 <= w < 0x10000
  {
    var low: int, high: int := f[k], f[k + 1];
    low + 256 * high
  }

  lemma WordIs(f: seq<Byte>, k: int)
    requires 0 <= k && k + 1 < |f|
    ensures var low: int, high: int := f[k], f[k + 1]; Word(f, k) == low + 256 * high
  {
  }

  /** Entry `c`: the high 12 bits of the word if `c` is odd, else the low ones. */
  ghost function TableEntry(f: seq<Byte>, c: int): (e: int)
    requires c >= 2 && Place(c) + 1 < |f|
    ensures 0 <= e < 0x1000
  {
    if c % 2 == 1 then Word(f, Place(c)) / 16 else Word(f, Place(c)) % 0x1000
  }

  /** The word at entry `c` with the entry replaced and the other four bits kept. */
  function NewWord(w: int, c: int, e: int): (w': int)
    requires 0 <= w < 0x10000 && 0 <= e < 0x1000
    ensures 0 <= w' < 0x10000
  {
    if c % 2 == 1 then w % 16 + e * 16 else w / 0x1000 * 0x1000 + e
  }

  ghost function Stored(f: seq<Byte>, c: int, e: int): seq<Byte>
    requires c >= 2 && Place(c) + 1 < |f| && 0 <= e < 0x1000
  {
    var w := NewWord(Word(f, Place(c)), c, e);
    f[Place(c) := w % 256][Place(c) + 1 := w / 256]
  }

  /** What is stored is read again. */
  lemma StoredIsRead(f: seq<Byte>, c: int, e: int)
    requires c >= 2 && Place(c) + 1 < |f| && 0 <= e < 0x1000
    ensures TableEntry(Stored(f, c, e), c) == e
  {
    var w := NewWord(Word(f, Place(c)), c, e);
    assert Word(Stored(f, c, e), Place(c)) == w;
  }

  lemma EntryIs(f: seq<Byte>, c: int)
    requires c >= 2 && Place(c) + 1 < |f|
    ensures var w := Word(f, Place(c)); TableEntry(f, c) == if c % 2 == 1 then w / 16 % 0x1000 else w % 0x1000
  {
    HighBits(f[Place(c)], f[Place(c) + 1]);
  }

  lemma HighBits(low: int, high: int)
    requires 0 <= low < 256 && 0 <= high < 256
    ensures (low + 256 * high) / 16 == low / 16 + 16 * high
    ensures (low + 256 * high) % 0x1000 == low + 256 * (high % 16)
  {
  }

  /** The half byte that belongs to the neighbour is kept. */
  lemma NeighbourKept(w: int, c: int, e: int)
    requires 0 <= w < 0x10000 && 0 <= e < 0x1000
    ensures var w' := NewWord(w, c, e);
            if c % 2 == 1 then w' % 256 % 16 == w % 256 % 16 else w' / 256 / 16 == w / 256 / 16
  {
    var w' := NewWord(w, c, e);
    if c % 2 == 1 {
      LowNibble(w');
      LowNibble(w);
    } else {
      HighNibble(w');
      HighNibble(w);
    }
  }

  lemma LowNibble(w: int)
    requires 0 <= w < 0x10000
    ensures w % 256 % 16 == w % 16
  {
  }

  lemma HighNibble(w: int)
    requires 0 <= w < 0x10000
    ensures w / 256 / 16 == w / 0x1000
  {
  }

  lemma WordBytes(f: seq<Byte>, k: int)
    requires 0 <= k && k + 1 < |f|
    ensures Word(f, k) % 256 == f[k] && Word(f, k) / 256 == f[k + 1]
  {
  }

  /** The odd entry after an even one shares a byte with it, and stays. */
  lemma NextStays(f: seq<Byte>, c: int, e: int)
    requires c >= 2 && c % 2 == 0 && Place(c + 1) + 1 < |f| && 0 <= e < 0x1000
    ensures TableEntry(Stored(f, c, e), c + 1) == TableEntry(f, c + 1)
  {
    var g, k := Stored(f, c, e), Place(c);
    NeighbourKept(Word(f, k), c, e);
    WordBytes(f, k);
    hide NewWord, Word;
    EntryBytes(f, c + 1);
    EntryBytes(g, c + 1);
    assert g[k + 1] / 16 == f[k + 1] / 16 && g[k + 2] == f[k + 2];
  }

  /** The even entry before an odd one shares a byte with it, and stays. */
  lemma LastStays(f: seq<Byte>, c: int, e: int)
    requires c >= 3 && c % 2 == 1 && Place(c) + 1 < |f| && 0 <= e < 0x1000
    ensures TableEntry(Stored(f, c, e), c - 1) == TableEntry(f, c - 1)
  {
    var g, k := Stored(f, c, e), Place(c);
    NeighbourKept(Word(f, k), c, e);
    WordBytes(f, k);
    hide NewWord, Word;
    EntryBytes(f, c - 1);
    EntryBytes(g, c - 1);
    assert g[k] % 16 == f[k] % 16 && g[k - 1] == f[k - 1];
  }

  lemma EntryBytes(f: seq<Byte>, c: int)
    requires c >= 2 && Place(c) + 1 < |f|
    ensures var low: int, high: int := f[Place(c)], f[Place(c) + 1];
            TableEntry(f, c) == if c % 2 == 1 then low / 16 + 16 * high else low + 256 * (high % 16)
  {
    HighBits(f[Place(c)], f[Place(c) + 1]);
  }

  /** Half byte number `j` of the table, the low half of a byte before the high one. */
  ghost function HalfByte(f: seq<Byte>, j: int): (h: int)
    requires 0 <= j < 2 * |f|
    ensures 0 <= h < 16
  {
    var b: int := f[j / 2];
    if j % 2 == 1 then b / 16 else b % 16
  }

  /** The entries lie one after the other, three half bytes or 12 bits each. */
  lemma HalfBytesOf(f: seq<Byte>, c: int)
    requires c >= 2 && c + c / 2 + 1 < |f|
    ensures 8 * Place(c) + 4 * (c % 2) == 12 * c
    ensures TableEntry(f, c) == HalfByte(f, 3 * c) + 16 * HalfByte(f, 3 * c + 1) + 256 * HalfByte(f, 3 * c + 2)
  {
    EntryBytes(f, c);
    HalfBytes(f[Place(c)], f[Place(c) + 1]);
    hide TableEntry, Word;
  }

  /** All other entries stay, also the one that shares a byte. */
  lemma OthersStay(f: seq<Byte>, c: int, e: int, c': int)
    requires c >= 2 && Place(c) + 1 < |f| && 0 <= e < 0x1000 && c' >= 2 && c' != c && Place(c') + 1 < |f|
    ensures TableEntry(Stored(f, c, e), c') == TableEntry(f, c')
  {
    if c' == c + 1 && c % 2 == 0 {
      NextStays(f, c, e);
    } else if c' == c - 1 && c % 2 == 1 {
      LastStays(f, c, e);
    } else {
      assert Place(c') + 1 < Place(c) || Place(c) + 1 < Place(c');
      hide NewWord;
    }
  }

  // ---------- An entry of which only the first byte was written ----------

  ghost function Torn(f: seq<Byte>, c: int, e: int): seq<Byte>
    requires c >= 2 && Place(c) + 1 < |f| && 0 <= e < 0x1000
  {
    f[Place(c) := Stored(f, c, e)[Place(c)]]
  }

  /** What such an entry says: the low half byte of an odd entry, or the low byte of an even one, is new. */
  lemma TornIs(f: seq<Byte>, c: int, e: int)
    requires c >= 2 && Place(c) + 1 < |f| && 0 <= e < 0x1000
    ensures var old_e := TableEntry(f, c);
            TableEntry(Torn(f, c, e), c) == if c % 2 == 1 then e % 16 + old_e / 16 * 16 else e % 256 + old_e / 256 * 256
  {
    EntryBytes(f, c);
    EntryBytes(Torn(f, c, e), c);
    LowByte(Word(f, Place(c)), c, e);
    hide Word, TableEntry, NewWord;
    assert Torn(f, c, e)[Place(c)] == NewWord(Word(f, Place(c)), c, e) % 256;
    var low: int, high: int := f[Place(c)], f[Place(c) + 1];
    HalfBytes(low, high);
    Shifted(low % 16, e % 16);
  }

  lemma LowByte(w: int, c: int, e: int)
    requires 0 <= w < 0x10000 && 0 <= e < 0x1000
    ensures NewWord(w, c, e) % 256 == if c % 2 == 1 then w % 16 + e % 16 * 16 else e % 256
  {
    if c % 2 == 1 {
      assert e * 16 == e / 16 * 256 + e % 16 * 16;
      LowOf(e / 16, w % 16 + e % 16 * 16);
    } else {
      assert w / 0x1000 * 0x1000 + e == (w / 0x1000 * 16 + e / 256) * 256 + e % 256;
      LowOf(w / 0x1000 * 16 + e / 256, e % 256);
    }
  }

  lemma HighByte(w: int, c: int, e: int)
    requires 0 <= w < 0x10000 && 0 <= e < 0x1000
    ensures NewWord(w, c, e) / 256 == if c % 2 == 1 then e / 16 else w / 256 / 16 * 16 + e / 256
  {
    HighNibble(w);
  }

  lemma LowOf(high: int, low: int)
    requires 0 <= low < 256
    ensures (high * 256 + low) % 256 == low
  {
  }

  lemma Shifted(x: int, y: int)
    requires 0 <= x < 16 && 0 <= y < 16
    ensures (x + y * 16) / 16 == y
  {
  }

  lemma HalfBytes(low: int, high: int)
    requires 0 <= low < 256 && 0 <= high < 256
    ensures (low / 16 + 16 * high) / 16 == high && (low + 256 * (high % 16)) / 256 == high % 16
  {
  }

  /** No other entry is harmed. */
  lemma TornSpares(f: seq<Byte>, c: int, e: int, c': int)
    requires c >= 2 && Place(c) + 1 < |f| && 0 <= e < 0x1000 && c' >= 2 && c' != c && Place(c') + 1 < |f|
    ensures TableEntry(Torn(f, c, e), c') == TableEntry(f, c')
  {
    var g, k := Torn(f, c, e), Place(c);
    if c' == c - 1 && c % 2 == 1 {
      NeighbourKept(Word(f, k), c, e);
      WordBytes(f, k);
      hide NewWord, Word;
      EntryBytes(f, c - 1);
      EntryBytes(g, c - 1);
      assert g[k] % 16 == f[k] % 16 && g[k - 1] == f[k - 1];
    } else {
      assert k != Place(c') && k != Place(c') + 1;
      hide NewWord;
    }
  }

  // ---------- Sector numbers and entries ----------

  /** The entry value that names data sector or mark `v`. */
  ghost function Encode(nfat: int, v: int): int {
    (if nfat <= v < 0xf00 then v - (nfat - 2) else v) % 0x1000
  }

  /** What an entry value means to the reader: free, last, bad, or the next sector. */
  ghost function Decode(nfat: int, e: int): int {
    if e == 0 then 0 else if e == 4095 then -1 else if e == 0xff7 then -2 else e + (nfat - 2)
  }

  /** No two entries get the same answer. */
  lemma AnswersDiffer(nfat: int, e: int, e': int)
    requires nfat > 2 && 0 <= e < 0x1000 && 0 <= e' < 0x1000
    ensures Decode(nfat, e) == Decode(nfat, e') <==> e == e'
  {
  }

  /** A number written comes back as itself exactly when it is 0 or a data sector below 0xf00, unless the
      numbers of the disk's data start so high that cutting to 12 bits undoes the shift.  The end mark 4095
      comes back as -1. */
  lemma ComesBack(nfat: int, v: int)
    requires nfat > 2 && 0 <= v < 0x10000
    ensures Decode(nfat, Encode(nfat, v)) == v <==>
            v == 0 || nfat <= v < 0xf00 ||
            (v >= 0x1000 && nfat - 2 == v - v % 0x1000 && v % 0x1000 !in {0, 0xff7, 4095})
    ensures Decode(nfat, Encode(nfat, 4095)) == -1
  {
  }

  // ---------- Bytes in sectors ----------

  lemma ByteAt(d: Sectors, k: int)
    requires IsDisk(d) && 0 <= k < (|d| - 1) * SECTOR
    ensures 1 <= 1 + k / SECTOR < |d| && 0 <= k % SECTOR < SECTOR && TableBytes(d)[k] == d[1 + k / SECTOR][k % SECTOR]
  {
  }

  ghost function SetByte(d: Sectors, k: int, x: Byte): Sectors
    requires IsDisk(d) && 0 <= k < (|d| - 1) * SECTOR
  {
    ByteAt(d, k);
    var block: seq<Byte> := d[1 + k / SECTOR][k % SECTOR := x];
    d[1 + k / SECTOR := block]
  }

  lemma SetByteIs(d: Sectors, k: int, x: Byte, block: seq<Byte>)
    requires IsDisk(d) && 0 <= k < (|d| - 1) * SECTOR
    requires 1 + k / SECTOR < |d| && 0 <= k % SECTOR < |d[1 + k / SECTOR]|
    requires block == d[1 + k / SECTOR][k % SECTOR := x]
    ensures SetByte(d, k, x) == d[1 + k / SECTOR := block]
  {
  }

  /** Changing one byte of one sector changes that byte of the table. */
  lemma WriteByte(d: Sectors, k: int, x: Byte)
    requires IsDisk(d) && 0 <= k < (|d| - 1) * SECTOR
    ensures IsDisk(SetByte(d, k, x)) && TableBytes(SetByte(d, k, x)) == TableBytes(d)[k := x]
  {
    ByteAt(d, k);
    var d' := SetByte(d, k, x);
    forall i | 0 <= i < (|d| - 1) * SECTOR ensures TableBytes(d')[i] == TableBytes(d)[k := x][i] {
      ByteAt(d, i);
      ByteAt(d', i);
      if i / SECTOR == k / SECTOR && i % SECTOR == k % SECTOR { SamePlace(i, k); }
    }
  }

  /** All other bytes of all sectors stay. */
  lemma ByteSet(d: Sectors, k: int, x: Byte)
    requires IsDisk(d) && 0 <= k < (|d| - 1) * SECTOR
    ensures forall n, i | 0 <= n < |d| && 0 <= i < 512 ::
              |SetByte(d, k, x)[n]| == |d[n]| == 512 &&
              SetByte(d, k, x)[n][i] == if n == 1 + k / 512 && i == k % 512 then x else d[n][i]
  {
    ByteAt(d, k);
  }

  lemma SamePlace(i: int, k: int)
    requires i / SECTOR == k / SECTOR && i % SECTOR == k % SECTOR
    ensures i == k
  {
  }

  // ---------- The program ----------

  /** Two bytes changed in turn, and where they are. */
  lemma TwoBytes(d: Sectors, k: int, low: Byte, high: Byte)
    requires IsDisk(d) && 0 <= k && k + 1 < (|d| - 1) * SECTOR
    ensures 1 <= 1 + k / SECTOR < |d| && 0 <= k % SECTOR < SECTOR && 1 <= 1 + (k + 1) / SECTOR < |d|
    ensures var d1 := SetByte(d, k, low);
            IsDisk(d1) && |d1| == |d| && TableBytes(d1) == TableBytes(d)[k := low] &&
            IsDisk(SetByte(d1, k + 1, high)) &&
            TableBytes(SetByte(d1, k + 1, high)) == TableBytes(d)[k := low][k + 1 := high]
  {
    hide TableBytes;
    ByteAt(d, k);
    ByteAt(d, k + 1);
    WriteByte(d, k, low);
    var d1 := SetByte(d, k, low);
    WriteByte(d1, k + 1, high);
  }

  /** What `setfat12` makes of the sectors `d`: the new low half byte of an odd entry, or the low byte of an even
      one, and, unless the write broke off, the rest of the entry; nothing else. */
  ghost predicate BytesOf(d: Sectors, d': Sectors, c: int, e: int, first: bool, second: bool)
    requires c >= 2
  {
    |d'| == |d| && (forall n | 0 <= n < |d| :: |d'[n]| == |d[n]| == 512) &&
    forall n, i | 0 <= n < |d| && 0 <= i < 512 ::
      d'[n][i] == if first && n == 1 + (c + c / 2) / 512 && i == (c + c / 2) % 512 then
                    (if c % 2 == 1 then d[n][i] % 16 + e % 16 * 16 else e % 256)
                  else if second && n == 1 + (c + c / 2 + 1) / 512 && i == (c + c / 2 + 1) % 512 then
                    (if c % 2 == 1 then e / 16 else d[n][i] / 16 * 16 + e / 256)
                  else d[n][i]
  }

  lemma Untouched(d: Sectors, c: int, e: int)
    requires IsDisk(d) && c >= 2
    ensures BytesOf(d, d, c, e, false, false)
  {
  }

  lemma BytesWritten(d: Sectors, c: int, e: int)
    requires IsDisk(d) && c >= 2 && Place(c) + 1 < (|d| - 1) * SECTOR && 0 <= e < 0x1000
    ensures var w, k := NewWord(Word(TableBytes(d), Place(c)), c, e), Place(c);
            IsDisk(SetByte(d, k, w % 256)) &&
            BytesOf(d, SetByte(d, k, w % 256), c, e, true, false) &&
            BytesOf(d, SetByte(SetByte(d, k, w % 256), k + 1, w / 256), c, e, true, true)
  {
    var f, k := TableBytes(d), Place(c);
    var w0 := Word(f, k);
    var w := NewWord(w0, c, e);
    ByteAt(d, k);
    ByteAt(d, k + 1);
    WordBytes(f, k);
    LowNibble(w0);
    LowByte(w0, c, e);
    HighByte(w0, c, e);
    TwoBytes(d, k, w % 256, w / 256);
    ByteSet(d, k, w % 256);
    ByteSet(SetByte(d, k, w % 256), k + 1, w / 256);
    hide TableBytes, Word, NewWord, SetByte;
  }

  class Disk {
    const sectors: array<seq<Byte>>

    /** Whether the read with this number, counted from 0, fails on this sector. */
    const fails: (nat, int) -> bool

    /** First sector of the root directory, and first data sector. */
    const psr: int
    const nfat: int

    /** Reads made so far. */
    var count: nat

    constructor (sectors: array<seq<Byte>>, fails: (nat, int) -> bool, psr: int, nfat: int)
      ensures this.sectors == sectors && this.fails == fails && this.psr == psr && this.nfat == nfat && count == 0
    {
      this.sectors, this.fails, this.psr, this.nfat, count := sectors, fails, psr, nfat, 0;
    }

    ghost predicate Valid()
      reads sectors
    {
      IsDisk(sectors[..]) && nfat > 2
    }

    ghost function Table(): seq<Byte>
      requires Valid()
      reads sectors
    {
      TableBytes(sectors[..])
    }

    /** Read number `t` succeeds if it is of sector `n`. */
    ghost predicate CanRead(t: nat, n: int) {
      0 <= n < sectors.Length && !fails(t, n)
    }

    method ReadBlock(n: int, buf: array<Byte>) returns (ok: bool)
      requires Valid() && buf.Length == SECTOR
      modifies this`count, buf
      ensures count == old(count) + 1 && (ok <==> CanRead(old(count), n))
      ensures if ok then buf[..] == sectors[..][n] else buf[..] == old(buf[..])
    {
      count := count + 1;
      if n < 0 || n >= sectors.Length || fails(count - 1, n) {
        return false;
      }
      ghost var block := sectors[..][n];
      assert block == sectors[n];
      for i := 0 to SECTOR
        invariant buf[..i] == block[..i] && count == old(count) + 1
      {
        buf[i] := sectors[n][i];
      }
      return true;
    }

    method WriteBlock(n: int, buf: array<Byte>)
      requires Valid() && buf.Length == SECTOR && 0 <= n < sectors.Length
      modifies sectors
      ensures Valid() && sectors[..] == old(sectors[..])[n := buf[..]]
    {
      sectors[n] := buf[..];
    }

    /** The entry lies in two sectors. */
    ghost predicate Straddles(c: int)
      requires c >= 2
    {
      Place(c) % SECTOR == SECTOR - 1
    }

    /** From read number `t` on, the reads of `intfat12` succeed: the second one is made also if only the byte
        after the entry lies in the next sector. */
    ghost predicate Readable(t: nat, c: int)
      requires c >= 2
    {
      CanRead(t, 1 + Place(c) / SECTOR) && (Place(c) % SECTOR >= SECTOR - 2 ==> CanRead(t + 1, 2 + Place(c) / SECTOR))
    }

    /** The reads by which `setfat12` gets the old entry succeed. */
    ghost predicate Fetched(t: nat, c: int)
      requires c >= 2
    {
      CanRead(t, 1 + Place(c) / SECTOR) && (Straddles(c) ==> CanRead(t + 1, 2 + Place(c) / SECTOR))
    }

    /** How many reads that takes. */
    ghost function Fetches(c: int): nat
      requires c >= 2
    {
      if Straddles(c) then 2 else 1
    }

    /** The reads by which `setfat12` gets the sectors back for writing, from read number `t` on: the first one. */
    ghost predicate First(t: nat, c: int)
      requires c >= 2
    {
      CanRead(t, 1 + Place(c) / SECTOR)
    }

    /** ... and all of them. */
    ghost predicate Both(t: nat, c: int)
      requires c >= 2
    {
      First(t, c) && (Straddles(c) ==> CanRead(t + 1, 2 + Place(c) / SECTOR))
    }

    /** All reads of `setfat12` succeed, from read number `t` on. */
    ghost predicate Writable(t: nat, c: int)
      requires c >= 2
    {
      Fetched(t, c) && Both(t + Fetches(c), c)
    }

    /** All but the last one succeed, and a sector has been written by then. */
    ghost predicate Breaks(t: nat, c: int)
      requires c >= 2
    {
      Fetched(t, c) && First(t + Fetches(c), c) && !Both(t + Fetches(c), c)
    }

    /** Both bytes of an entry that was fetched are in the table. */
    lemma InTable(t: nat, c: int)
      requires Valid() && c >= 2 && Fetched(t, c)
      ensures Place(c) + 1 < |Table()|
      ensures var k, d := Place(c), sectors[..];
              Table()[k] == d[1 + k / SECTOR][k % SECTOR] &&
              Table()[k + 1] == if k % SECTOR == SECTOR - 1 then d[2 + k / SECTOR][0]
                                else d[1 + k / SECTOR][k % SECTOR + 1]
    {
      var k := Place(c);
      ByteAt(sectors[..], k);
      NextPlace(k);
      ByteAt(sectors[..], k + 1);
    }

    /** The bytes of an entry, and what it is, in terms of the sectors. */
    lemma OnDisk(t: nat, c: int)
      requires Valid() && c >= 2 && Fetched(t, c)
      ensures var k := c + c / 2;
              Place(c) == k && k + 1 < |Table()| && 1 + (k + 1) / 512 < sectors.Length &&
              |sectors[1 + k / 512]| == |sectors[1 + (k + 1) / 512]| == 512 &&
              Table()[k] == sectors[1 + k / 512][k % 512] &&
              Table()[k + 1] == sectors[1 + (k + 1) / 512][(k + 1) % 512]
      ensures var k := c + c / 2;
              var low: int, high: int := sectors[1 + k / 512][k % 512], sectors[1 + (k + 1) / 512][(k + 1) % 512];
              TableEntry(Table(), c) == if c % 2 == 1 then low / 16 + 16 * high else low + 256 * (high % 16)
    {
      InTable(t, c);
      ByteAt(sectors[..], Place(c));
      ByteAt(sectors[..], Place(c) + 1);
      EntryBytes(Table(), c);
    }

    lemma NextPlace(k: int)
      requires 0 <= k
      ensures if k % SECTOR == SECTOR - 1 then (k + 1) / SECTOR == k / SECTOR + 1 && (k + 1) % SECTOR == 0
              else (k + 1) / SECTOR == k / SECTOR && (k + 1) % SECTOR == k % SECTOR + 1
    {
    }

    /** Reads the two bytes of entry `c`; `third` asks for the byte after them, too. */
    method ReadPair(c: int, third: bool, buf: array<Byte>) returns (ok: bool, low: Byte, high: Byte)
      requires Valid() && c >= 2 && buf.Length == SECTOR
      modifies this`count, buf
      ensures ok <==> if third then Readable(old(count), c) else Fetched(old(count), c)
      ensures ok && !third ==> count == old(count) + Fetches(c)
      ensures ok ==> Place(c) + 1 < |Table()| && low == Table()[Place(c)] && high == Table()[Place(c) + 1]
    {
      low, high := 0, 0;
      var knn := c + 1 + (c - 2) / 2;
      assert knn == Place(c);
      var znn := knn % SECTOR;
      ok := ReadBlock(1 + knn / SECTOR, buf);
      if !ok {
        return;
      }
      low := buf[znn];
      znn := znn + 1;
      if znn > SECTOR - 1 {
        ok := ReadBlock(2 + knn / SECTOR, buf);
        if !ok {
          return;
        }
        znn := 0;
      }
      high := buf[znn];
      znn := znn + 1;
      InTable(old(count), c);
      if third && znn > SECTOR - 1 {
        ok := ReadBlock(2 + knn / SECTOR, buf);
      }
    }

    /** `intfat12`: what the table says about data sector `nn`; sectors before the data are answered without
        the table.  With `k` the first byte of the entry: -3 exactly when a read fails, 0 if the 12 bits are 0,
        -1 if they are 0xfff, -2 if they are 0xff7, and else the data sector they name. */
    method IntFat12(nn: int) returns (r: int)
      requires Valid()
      modifies this`count
      ensures nn < nfat ==> r == if nn == nfat - 1 then -1 else if nn < psr then -4 else nn + 1
      ensures nn >= nfat && !Readable(old(count), nn - (nfat - 2)) ==> r == -3
      ensures nn >= nfat && Readable(old(count), nn - (nfat - 2)) ==>
                Place(nn - (nfat - 2)) + 1 < |Table()| && r == Decode(nfat, TableEntry(Table(), nn - (nfat - 2)))
      ensures nn >= nfat ==>
                var c := nn - nfat + 2;
                var k := c + c / 2;
                var n := 1 + k / 512;
                r == -3 <==>
                n >= sectors.Length || fails(old(count), n) ||
                (k % 512 >= 510 && (n + 1 >= sectors.Length || fails(old(count) + 1, n + 1)))
      ensures nn >= nfat && r != -3 ==>
                var c := nn - nfat + 2;
                var k := c + c / 2;
                1 + (k + 1) / 512 < sectors.Length && k % 512 < |sectors[1 + k / 512]| &&
                (k + 1) % 512 < |sectors[1 + (k + 1) / 512]| &&
                var low: int, high: int := sectors[1 + k / 512][k % 512], sectors[1 + (k + 1) / 512][(k + 1) % 512];
                var e := if c % 2 == 1 then low / 16 + 16 * high else low + 256 * (high % 16);
                r == if e == 0 then 0 else if e == 0xfff then -1 else if e == 0xff7 then -2 else e + nfat - 2
    {
      hide IsDisk, TableBytes, TableEntry;
      if nn < nfat {
        if nn == nfat - 1 {
          return -1;
        }
        if nn < psr {
          return -4;
        }
        return nn + 1;
      }
      var c := nn - (nfat - 2);
      var buf := new Byte[SECTOR](_ => 0);
      var ok, low, high := ReadPair(c, true, buf);
      if !ok {
        return -3;
      }
      var word: int, high_byte: int := low, high;
      word := word + 256 * high_byte;
      assert word == Word(Table(), Place(c));
      OnDisk(old(count), c);
      var e := if c % 2 == 1 then word / 16 % 0x1000 else word % 0x1000;
      assert e == TableEntry(Table(), c) by { EntryIs(Table(), c); }
      if e == 0 {
        return 0;
      }
      if e == 4095 {
        return -1;
      }
      if e == 0xff7 {
        return -2;
      }
      return e + (nfat - 2);
    }

    /** Writes the two bytes of entry `c`, in one sector or in two; a failing read in between leaves the first
        byte written. */
    method WritePair(c: int, low: Byte, high: Byte, buf: array<Byte>) returns (ok: bool)
      requires Valid() && c >= 2 && buf.Length == SECTOR && Place(c) + 1 < |Table()|
      modifies this`count, sectors, buf
      ensures Valid() && (ok <==> Both(old(count), c))
      ensures Table() == if ok then old(Table())[Place(c) := low][Place(c) + 1 := high]
                         else if First(old(count), c) then old(Table())[Place(c) := low]
                         else old(Table())
      ensures sectors[..] == if ok then SetByte(SetByte(old(sectors[..]), Place(c), low), Place(c) + 1, high)
                             else if First(old(count), c) then SetByte(old(sectors[..]), Place(c), low)
                             else old(sectors[..])
    {
      hide TableBytes, SetByte, IsDisk;
      ghost var d, k := sectors[..], Place(c);
      NextPlace(k);
      TwoBytes(d, k, low, high);
      ghost var d1 := SetByte(d, k, low);
      var knn := c + 1 + (c - 2) / 2;
      assert knn == k;
      var znn := knn % SECTOR;
      ok := ReadBlock(1 + knn / SECTOR, buf);
      if !ok {
        return;
      }
      buf[znn] := low;
      SetByteIs(d, k, low, buf[..]);
      znn := znn + 1;
      if znn > SECTOR - 1 {
        WriteBlock(1 + knn / SECTOR, buf);
        assert sectors[..] == d1;
        knn := knn + SECTOR;
        ok := ReadBlock(1 + knn / SECTOR, buf);
        if !ok {
          return;
        }
        znn := 0;
      }
      buf[znn] := high;
      SetByteIs(d1, k + 1, high, buf[..]);
      WriteBlock(1 + knn / SECTOR, buf);
      assert sectors[..] == SetByte(d1, k + 1, high);
    }

    /** `setfat12`: makes the entry of data sector `nn` say `nnk`, a 16 bit number.  With `k` the first byte of the
        entry: which reads must succeed, and each byte of each sector afterwards. */
    method SetFat12(nn: int, nnk: int) returns (r: int)
      requires Valid() && 0 <= nnk < 0x10000
      modifies this`count, sectors
      ensures Valid() && r == if nn < nfat then -1 else if Writable(old(count), nn - (nfat - 2)) then 0 else -3
      ensures r == 0 || (r == -3 && Breaks(old(count), nn - (nfat - 2))) ==>
                Place(nn - (nfat - 2)) + 1 < |old(Table())|
      ensures Table() == if r == 0 then Stored(old(Table()), nn - (nfat - 2), Encode(nfat, nnk))
                         else if r == -3 && Breaks(old(count), nn - (nfat - 2)) then
                           Torn(old(Table()), nn - (nfat - 2), Encode(nfat, nnk))
                         else old(Table())
      ensures nn >= nfat ==>
                var c := nn - nfat + 2;
                var k := c + c / 2;
                var n := 1 + k / 512;
                r == 0 <==>
                n < sectors.Length && !fails(old(count), n) &&
                if k % 512 < 511 then !fails(old(count) + 1, n)
                else n + 1 < sectors.Length && !fails(old(count) + 1, n + 1) && !fails(old(count) + 2, n) &&
                     !fails(old(count) + 3, n + 1)
      ensures nn < nfat ==> sectors[..] == old(sectors[..])
      ensures nn >= nfat ==>
                var c, e := nn - nfat + 2, (if nfat <= nnk < 0xf00 then nnk - nfat + 2 else nnk) % 0x1000;
                var k := c + c / 2;
                var torn := 2 + k / 512 < sectors.Length && k % 512 == 511 && !fails(old(count), 1 + k / 512) &&
                            !fails(old(count) + 1, 2 + k / 512) && !fails(old(count) + 2, 1 + k / 512);
                BytesOf(old(sectors[..]), sectors[..], c, e, r == 0 || torn, r == 0)
    {
      hide TableBytes, NewWord, First, Both, Fetched, Fetches, SetByte, IsDisk, Word, CanRead, Straddles;
      if nn < nfat {
        return -1;
      }
      var c := nn - (nfat - 2);
      var k := if nnk >= nfat && nnk < 0xf00 then nnk - (nfat - 2) else nnk;
      var buf := new Byte[SECTOR](_ => 0);
      ghost var d := sectors[..];
      Untouched(d, c, k % 0x1000);
      WhichReads(old(count), c);
      ghost var q := c + c / 2;
      ghost var torn := 2 + q / 512 < sectors.Length && q % 512 == 511 && !fails(old(count), 1 + q / 512) &&
                        !fails(old(count) + 1, 2 + q / 512) && !fails(old(count) + 2, 1 + q / 512);
      var ok, low, high := ReadPair(c, false, buf);
      if !ok {
        assert !torn;
        assert BytesOf(d, sectors[..], c, k % 0x1000, false, false);
        return -3;
      }
      k := k % 0x1000;
      var word: int, high_byte: int := low, high;
      word := word + 256 * high_byte;
      assert word == Word(Table(), Place(c)) by { WordIs(Table(), Place(c)); }
      word := NewWord(word, c, k);
      EncodeFits(nfat, nnk);
      BytesWritten(d, c, k);
      ok := WritePair(c, word % 256, word / 256, buf);
      BothFirst(old(count) + Fetches(c), c);
      r := if ok then 0 else -3;
      assert First(old(count) + Fetches(c), c) <==> (ok || torn);
      assert BytesOf(d, sectors[..], c, k, ok || torn, ok);
    }

    lemma WhichReads(t: nat, c: int)
      requires c >= 2
      ensures var k := c + c / 2;
              var n := 1 + k / 512;
              (Fetched(t, c) <==>
               n < sectors.Length && !fails(t, n) &&
               (k % 512 == 511 ==> n + 1 < sectors.Length && !fails(t + 1, n + 1))) &&
              Fetches(c) == (if k % 512 == 511 then 2 else 1) &&
              (First(t + Fetches(c), c) <==> n < sectors.Length && !fails(t + Fetches(c), n)) &&
              (Both(t + Fetches(c), c) <==>
               First(t + Fetches(c), c) &&
               (k % 512 == 511 ==> n + 1 < sectors.Length && !fails(t + Fetches(c) + 1, n + 1)))
    {
    }

    lemma BothFirst(t: nat, c: int)
      requires c >= 2
      ensures Both(t, c) ==> First(t, c)
    {
    }

    /** Only an entry that lies in two sectors can be left torn, and only by the fourth read. */
    lemma TornWhen(t: nat, c: int)
      requires c >= 2
      ensures Breaks(t, c) <==>
              Straddles(c) && CanRead(t, 1 + Place(c) / SECTOR) && CanRead(t + 1, 2 + Place(c) / SECTOR) &&
              CanRead(t + 2, 1 + Place(c) / SECTOR) && !CanRead(t + 3, 2 + Place(c) / SECTOR)
    {
    }

    /** Writing and reading back: a data sector in range comes back as itself, 0 as 0, the end mark as -1.
        Whatever fails, no other entry changes. */
    method SetAndGet(nn: int, nnk: int) returns (done: int, r: int)
      requires Valid() && nn >= nfat && 0 <= nnk < 0x10000
      modifies this`count, sectors
      ensures Valid() && (done == 0 || done == -3) && (done == 0 <==> Writable(old(count), nn - (nfat - 2)))
      ensures done == 0 && r != -3 ==> (nnk == 0 || nfat <= nnk < 0xf00 ==> r == nnk) && (nnk == 4095 ==> r == -1)
      ensures |Table()| == |old(Table())|
      ensures forall c | c >= 2 && c != nn - (nfat - 2) && Place(c) + 1 < |Table()| ::
                TableEntry(Table(), c) == TableEntry(old(Table()), c)
    {
      hide TableBytes, NewWord, TableEntry, Encode, Decode, Writable, Breaks, Readable;
      ghost var f, c := Table(), nn - (nfat - 2);
      done := SetFat12(nn, nnk);
      ghost var g := Table();
      r := IntFat12(nn);
      EncodeFits(nfat, nnk);
      if done == 0 {
        StoredIsRead(f, c, Encode(nfat, nnk));
        ComesBack(nfat, nnk);
      }
      forall c' | c' >= 2 && c' != c && Place(c') + 1 < |Table()|
        ensures TableEntry(Table(), c') == TableEntry(f, c')
      {
        if g != f {
          OthersStay(f, c, Encode(nfat, nnk), c');
          TornSpares(f, c, Encode(nfat, nnk), c');
        }
      }
    }

    lemma EncodeFits(nfat: int, v: int)
      requires nfat > 2 && 0 <= v < 0x10000
      ensures 0 <= Encode(nfat, v) < 0x1000
    {
    }
  }
}

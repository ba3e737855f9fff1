/** What copy_string_from_task (src/task/task.c:142-177) delivers, as a function of the memory
    it starts from, and exactly when that is the string the task sees. */
module StringCopies {
  import opened Words
  import opened Arithmetic
  import opened HeapTable
  import opened Heaps
  import opened KHeap
  import opened PageTables
  import opened Paging
  import opened AddressSpace
  import opened PoolBytes

  // ------------------------------------------------------------- reading memory

  predicate InHeap(w: seq<Word>, base: nat, a: Word) {
    base <= a < base + |w| * 4
  }

  /** The byte at a physical address: in the heap's memory or somewhere else. */
  function Read(w: seq<Word>, base: nat, outside: Word -> Byte, a: Word): Byte {
    if InHeap(w, base, a) then PoolByte(w, a - base) else outside(a)
  }

  /** The physical address of byte i of a string, by the flat map f. */
  function Place(f: seq<Word>, virt: Word, i: nat): Word
    requires |f| == PAGES
  {
    Translate(f, (virt + i) % WORD_LIMIT)
  }

  /** The n bytes a task with the flat map f sees from a virtual address on */
  ghost function Seen(w: seq<Word>, base: nat, outside: Word -> Byte, f: seq<Word>, virt: Word, n: nat): (r: seq<Byte>)
    requires |f| == PAGES
    ensures |r| == n
  {
    seq<Byte>(n, i requires 0 <= i < n => Read(w, base, outside, Place(f, virt, i)))
  }

  /** Bytes up to the first NUL, and NULs from there on: what strncpy leaves. */
  ghost function Padded(s: seq<Byte>): (r: seq<Byte>)
    ensures |r| == |s|
  {
    seq<Byte>(|s|, i requires 0 <= i < |s| => if 0 in s[..i] then 0 else s[i])
  }

  /** The physical address is in block b. */
  predicate InBlock(base: nat, b: int, a: Word) {
    base + b * PAGE_SIZE <= a < base + (b + 1) * PAGE_SIZE
  }

  /** It is in the first n bytes of the block. */
  predicate InFirst(base: nat, b: int, n: nat, a: Word) {
    base + b * PAGE_SIZE <= a < base + b * PAGE_SIZE + n
  }

  lemma ReadApart(w: seq<Word>, w': seq<Word>, base: nat, outside: Word -> Byte, b: int, a: Word)
    requires SameOutside(w, w', b) && !InBlock(base, b, a)
    ensures Read(w', base, outside, a) == Read(w, base, outside, a)
  {
    hide GetByte;
    if InHeap(w, base, a) {
      assert (a - base) / 4 / ENTRIES != b;
    }
  }

  /** Writing a block that is not one of its own leaves an address space alone. */
  lemma SpaceApart(w: seq<Word>, w': seq<Word>, base: nat, c: int, b: int)
    requires IsSpace(w, base, c) && SameOutside(w, w', b) && !InSpace(w, base, c, b)
    ensures IsSpace(w', base, c) && DirectoryOf(w', base, c) == DirectoryOf(w, base, c)
    ensures forall x :: InSpace(w', base, c, x) <==> InSpace(w, base, c, x)
    ensures Map(w', base, c) == Map(w, base, c)
  {
    hide IsSpace, InSpace, Map;
    SpaceKept(w, w', base, c);
  }

  /** Nor does it move a page-table entry. */
  lemma SlotApart(w: seq<Word>, w': seq<Word>, base: nat, c: int, b: int, p: int)
    requires IsSpace(w, base, c) && SameOutside(w, w', b) && !InSpace(w, base, c, b) && 0 <= p < PAGES
    ensures IsSpace(w', base, c) && DirectoryOf(w', base, c) == DirectoryOf(w, base, c) && !InSpace(w', base, c, b)
    ensures var d := DirectoryOf(w, base, c);
            Slot(w', base, d, p) == Slot(w, base, d, p) && Slot(w, base, d, p) / ENTRIES != b
  {
    var d, i := DirectoryOf(w, base, c), p / ENTRIES;
    SpaceApart(w, w', base, c, b);
    assert IsTable(w, base, d, TableBlock(w, base, d, i));
    assert d != b && (d * ENTRIES + i) / ENTRIES == d;
    assert BlockEntry(w', d, i) == BlockEntry(w, d, i);
  }

  // ------------------------------------------------------------- padding

  lemma CutAndPadded(s: seq<Byte>, d: seq<Byte>, stop: nat)
    requires |d| == |s| && stop <= |s| && 0 !in s[..stop] && (stop < |s| ==> s[stop] == 0)
    requires d[..stop] == s[..stop] && forall j | stop <= j < |s| :: d[j] == 0
    ensures d == Padded(s)
  {
    forall j | 0 <= j < |s|
      ensures d[j] == Padded(s)[j]
    {
      if j < stop {
        assert d[j] == d[..stop][j] == s[j];
        assert s[..j] <= s[..stop];
      } else if j > stop {
        assert s[..j][stop] == 0;
      }
    }
  }

  /** Padding a padded string changes nothing. */
  lemma PaddedTwice(s: seq<Byte>)
    ensures Padded(Padded(s)) == Padded(s)
  {
    forall i | 0 <= i < |s| && 0 in Padded(s)[..i]
      ensures Padded(s)[i] == 0
    {
      var j :| 0 <= j < i && Padded(s)[..i][j] == 0;
      if 0 in s[..j] {
        assert s[..j] == s[..i][..j];
      } else {
        assert s[..i][j] == 0;
      }
    }
  }

  /** Strings that agree up to the first NUL of one of them are padded to the same bytes. */
  lemma PaddedAgree(s: seq<Byte>, s': seq<Byte>)
    requires |s'| == |s| && forall i | 0 <= i < |s| && 0 !in s[..i] :: s'[i] == s[i]
    ensures Padded(s') == Padded(s)
  {
    forall i | 0 <= i < |s|
      ensures Padded(s')[i] == Padded(s)[i]
    {
      NulAgree(s, s', i);
    }
  }

  lemma {:induction false} NulAgree(s: seq<Byte>, s': seq<Byte>, i: nat)
    requires |s'| == |s| && i <= |s| && forall i | 0 <= i < |s| && 0 !in s[..i] :: s'[i] == s[i]
    ensures 0 in s'[..i] <==> 0 in s[..i]
  {
    if i > 0 {
      NulAgree(s, s', i - 1);
      assert s[..i] == s[..i - 1] + [s[i - 1]];
      assert s'[..i] == s'[..i - 1] + [s'[i - 1]];
    }
  }

  /** Strings that first differ before any NUL are padded differently. */
  lemma PaddedDiffer(s: seq<Byte>, s': seq<Byte>, i: nat)
    requires |s'| == |s| && i < |s| && s'[..i] == s[..i] && 0 !in s[..i] && s'[i] != s[i]
    ensures Padded(s') != Padded(s)
  {
    assert Padded(s)[i] == s[i] && Padded(s')[i] == s'[i];
  }

  // ------------------------------------------------------------- what is delivered

  /** What strncpy reads, one byte after the other, when it writes to block b what it has read:
      from the bytes of the block already written it gets the string itself. */
  ghost function Fetched(w: seq<Word>, base: nat, outside: Word -> Byte, f: seq<Word>, b: nat, virt: Word, n: nat)
    : (r: seq<Byte>)
    requires |f| == PAGES
    ensures |r| == n
  {
    if n == 0 then [] else
      var s, a := Fetched(w, base, outside, f, b, virt, n - 1), Place(f, virt, n - 1);
      s + [if InFirst(base, b, n - 1, a) then s[a - (base + b * PAGE_SIZE)] else Read(w, base, outside, a)]
  }

  lemma {:induction false} FetchedAt(w: seq<Word>, base: nat, outside: Word -> Byte, f: seq<Word>, b: nat,
                                     virt: Word, n: nat, i: nat)
    requires |f| == PAGES && i < n
    ensures var s, a := Fetched(w, base, outside, f, b, virt, n), Place(f, virt, i);
            s[i] == if InFirst(base, b, i, a) then s[a - (base + b * PAGE_SIZE)] else Read(w, base, outside, a)
  {
    hide Place, Read;
    if i < n - 1 {
      FetchedAt(w, base, outside, f, b, virt, n - 1, i);
    }
  }

  /** The memory strncpy runs on: n bytes of block b cleared, and b mapped to itself. */
  ghost function MemoryForCopy(w: seq<Word>, base: nat, c: int, b: nat, n: nat): (r: seq<Word>)
    requires IsSpace(w, base, c) && base / PAGE_SIZE + b < PAGES
    ensures |r| == |w|
  {
    var p := base / PAGE_SIZE + b;
    ZeroBytes(w, b * ENTRIES, n)[Slot(w, base, DirectoryOf(w, base, c), p) := PageEntry(p, USER_FLAGS)]
  }

  ghost function MapForCopy(w: seq<Word>, base: nat, c: int, b: nat): (f: seq<Word>)
    requires IsSpace(w, base, c) && base / PAGE_SIZE + b < PAGES
    ensures |f| == PAGES
  {
    Map(w, base, c)[base / PAGE_SIZE + b := PageEntry(base / PAGE_SIZE + b, USER_FLAGS)]
  }

  /** The string delivered by way of block b */
  ghost function Delivered(w: seq<Word>, base: nat, c: int, outside: Word -> Byte, b: nat, virt: Word, n: nat)
    : (r: seq<Byte>)
    requires IsSpace(w, base, c) && base / PAGE_SIZE + b < PAGES
    ensures |r| == n
  {
    Padded(Fetched(MemoryForCopy(w, base, c, b, n), base, outside, MapForCopy(w, base, c, b), b, virt, n))
  }

  // ------------------------------------------------------------- the memory of the copy

  /** The physical address is in the page-table entry of the page of block b. */
  ghost predicate InEntry(w: seq<Word>, base: nat, c: int, b: nat, a: Word)
    requires IsSpace(w, base, c)
  {
    && base / PAGE_SIZE + b < PAGES && base <= a
    && (a - base) / 4 == Slot(w, base, DirectoryOf(w, base, c), base / PAGE_SIZE + b)
  }

  /** The copy changes the byte before it reads it: it is one of the n cleared ones, or one of
      the page's entry that the new entry does not have. */
  ghost predicate Spoilt(w: seq<Word>, base: nat, c: int, b: nat, n: nat, a: Word)
    requires IsSpace(w, base, c)
  {
    || InFirst(base, b, n, a)
    || (InEntry(w, base, c, b, a)
        && GetByte(PageEntry(base / PAGE_SIZE + b, USER_FLAGS), (a - base) % 4) != PoolByte(w, a - base))
  }

  lemma ReadForCopy(w: seq<Word>, base: nat, c: int, outside: Word -> Byte, b: nat, n: nat, a: Word)
    requires IsSpace(w, base, c) && !InSpace(w, base, c, b) && InPool(w, b) && n <= PAGE_SIZE
    requires base / PAGE_SIZE + b < PAGES
    ensures InEntry(w, base, c, b, a) ==> InHeap(w, base, a) && !InBlock(base, b, a)
    ensures Read(MemoryForCopy(w, base, c, b, n), base, outside, a)
         == if InFirst(base, b, n, a) then 0
            else if InEntry(w, base, c, b, a) then GetByte(PageEntry(base / PAGE_SIZE + b, USER_FLAGS), (a - base) % 4)
            else Read(w, base, outside, a)
  {
    hide IsSpace, InSpace, GetByte, ZeroBytes, PageEntry, DirectoryOf, IsDirectory;
    SlotApart(w, w, base, c, b, base / PAGE_SIZE + b);
    if InHeap(w, base, a) {
      ByteCleared(w, b, n, a - base);
    }
  }

  /** A byte of the string that is found in the same place and not spoilt is fetched as it is. */
  lemma FetchedAsSeen(w: seq<Word>, base: nat, c: int, outside: Word -> Byte, b: nat, virt: Word, n: nat, i: nat)
    requires IsSpace(w, base, c) && !InSpace(w, base, c, b) && InPool(w, b) && i < n <= PAGE_SIZE
    requires base / PAGE_SIZE + b < PAGES
    requires Place(MapForCopy(w, base, c, b), virt, i) == Place(Map(w, base, c), virt, i)
    requires !Spoilt(w, base, c, b, n, Place(Map(w, base, c), virt, i))
    ensures Fetched(MemoryForCopy(w, base, c, b, n), base, outside, MapForCopy(w, base, c, b), b, virt, n)[i]
         == Seen(w, base, outside, Map(w, base, c), virt, n)[i]
  {
    hide IsSpace, InSpace, Place, MemoryForCopy, MapForCopy, Map, Slot, PageEntry, GetByte;
    ReadForCopy(w, base, c, outside, b, n, Place(Map(w, base, c), virt, i));
    FetchedAt(MemoryForCopy(w, base, c, b, n), base, outside, MapForCopy(w, base, c, b), b, virt, n, i);
  }

  // ------------------------------------------------------------- strings off the page

  /** The address is not on the page of block b, by itself or through the task's map, and its
      byte is not in the entry that is changed for the copy. */
  ghost predicate OffTemp(w: seq<Word>, base: nat, c: int, b: nat, v: Word)
    requires IsSpace(w, base, c)
  {
    var a := Translate(Map(w, base, c), v);
    !InBlock(base, b, v) && !InBlock(base, b, a) && !InEntry(w, base, c, b, a)
  }

  /** Up to its first NUL the string is off the temporary page, the lowest free block. */
  ghost predicate Proper(t: Table, w: seq<Word>, base: nat, c: int, virt: Word, s: seq<Byte>)
    requires IsSpace(w, base, c)
  {
    forall b: nat, i | LowestFit(t, b, 1) && 0 <= i < |s| && 0 !in s[..i] ::
      OffTemp(w, base, c, b, (virt + i) % WORD_LIMIT)
  }

  lemma OffTempUnspoilt(w: seq<Word>, base: nat, c: int, b: nat, n: nat, virt: Word, i: nat)
    requires IsSpace(w, base, c) && base % PAGE_SIZE == 0 && base / PAGE_SIZE + b < PAGES && n <= PAGE_SIZE
    requires OffTemp(w, base, c, b, (virt + i) % WORD_LIMIT)
    ensures Place(MapForCopy(w, base, c, b), virt, i) == Place(Map(w, base, c), virt, i)
    ensures !Spoilt(w, base, c, b, n, Place(Map(w, base, c), virt, i))
  {
    hide IsSpace, Map, Mask, PageEntry, GetByte, Slot;
    assert (virt + i) % WORD_LIMIT / PAGE_SIZE != base / PAGE_SIZE + b;
  }

  /** A string off the temporary page is delivered as the task sees it. */
  lemma OffPageDelivered(t: Table, w: seq<Word>, base: nat, c: int, outside: Word -> Byte, b: nat, virt: Word, n: nat)
    requires IsSpace(w, base, c) && !InSpace(w, base, c, b) && InPool(w, b) && n <= PAGE_SIZE
    requires base % PAGE_SIZE == 0 && base / PAGE_SIZE + b < PAGES && LowestFit(t, b, 1)
    requires Proper(t, w, base, c, virt, Seen(w, base, outside, Map(w, base, c), virt, n))
    ensures Delivered(w, base, c, outside, b, virt, n) == Padded(Seen(w, base, outside, Map(w, base, c), virt, n))
  {
    hide IsSpace, InSpace, Map, OffTemp, Place, Padded, Seen, Fetched, MemoryForCopy, MapForCopy, LowestFit, Spoilt;
    var s := Seen(w, base, outside, Map(w, base, c), virt, n);
    var r := Fetched(MemoryForCopy(w, base, c, b, n), base, outside, MapForCopy(w, base, c, b), b, virt, n);
    forall i | 0 <= i < n && 0 !in s[..i]
      ensures r[i] == s[i]
    {
      OffTempUnspoilt(w, base, c, b, n, virt, i);
      FetchedAsSeen(w, base, c, outside, b, virt, n, i);
    }
    PaddedAgree(s, r);
  }

  // ------------------------------------------------------------- the exact condition

  /** The task's map sends the page of block b to the block, whatever the flags. */
  ghost predicate TempIsIdentity(w: seq<Word>, base: nat, c: int, b: nat)
    requires IsSpace(w, base, c)
  {
    base / PAGE_SIZE + b < PAGES && Mask(Map(w, base, c)[base / PAGE_SIZE + b]) == base + b * PAGE_SIZE
  }

  lemma SamePlaces(w: seq<Word>, base: nat, c: int, b: nat, virt: Word, i: nat)
    requires IsSpace(w, base, c) && base % PAGE_SIZE == 0 && TempIsIdentity(w, base, c, b)
    ensures Place(MapForCopy(w, base, c, b), virt, i) == Place(Map(w, base, c), virt, i)
  {
    hide IsSpace, Map, Mask, PageEntry;
    EntryAddress(base / PAGE_SIZE + b, USER_FLAGS);
  }

  /** No byte before number i is a NUL, if those in block b are not. */
  ghost predicate Reached(w: seq<Word>, base: nat, outside: Word -> Byte, f: seq<Word>, b: nat, virt: Word, i: nat)
    requires |f| == PAGES
  {
    forall j: nat | j < i :: InBlock(base, b, Place(f, virt, j)) || Read(w, base, outside, Place(f, virt, j)) != 0
  }

  /** Up to the first NUL that is not in block b, no byte is spoilt. */
  ghost predicate Unspoilt(w: seq<Word>, base: nat, c: int, outside: Word -> Byte, b: nat, virt: Word, n: nat)
    requires IsSpace(w, base, c)
  {
    var f := Map(w, base, c);
    forall i: nat | i < n && Reached(w, base, outside, f, b, virt, i) :: !Spoilt(w, base, c, b, n, Place(f, virt, i))
  }

  /** The string is delivered, whatever the free block b holds. */
  ghost predicate RightForEveryContent(w: seq<Word>, base: nat, c: int, outside: Word -> Byte, b: nat,
                                       virt: Word, n: nat)
    requires base / PAGE_SIZE + b < PAGES
  {
    forall w' | SameOutside(w, w', b) && IsSpace(w', base, c) ::
      Delivered(w', base, c, outside, b, virt, n) == Padded(Seen(w', base, outside, Map(w', base, c), virt, n))
  }

  /** The content of block b spoils no byte and saves none. */
  lemma SpoiltApart(w: seq<Word>, w': seq<Word>, base: nat, c: int, b: nat, n: nat, a: Word)
    requires IsSpace(w, base, c) && !InSpace(w, base, c, b) && SameOutside(w, w', b)
    ensures IsSpace(w', base, c) && (Spoilt(w', base, c, b, n, a) <==> Spoilt(w, base, c, b, n, a))
  {
    hide IsSpace, InSpace, GetByte, PageEntry, IsDirectory, DirectoryOf, Slot;
    SpaceApart(w, w', base, c, b);
    if base / PAGE_SIZE + b < PAGES {
      SlotApart(w, w', base, c, b, base / PAGE_SIZE + b);
    }
  }

  lemma UnspoiltDelivers(w: seq<Word>, w': seq<Word>, base: nat, c: int, outside: Word -> Byte, b: nat,
                         virt: Word, n: nat)
    requires IsSpace(w, base, c) && !InSpace(w, base, c, b) && InPool(w, b) && n <= PAGE_SIZE
    requires base % PAGE_SIZE == 0 && TempIsIdentity(w, base, c, b) && SameOutside(w, w', b)
    requires Unspoilt(w, base, c, outside, b, virt, n) && IsSpace(w', base, c)
    ensures Delivered(w', base, c, outside, b, virt, n) == Padded(Seen(w', base, outside, Map(w', base, c), virt, n))
  {
    hide IsSpace, InSpace, Map, Place, Padded, Fetched, MemoryForCopy, MapForCopy, Spoilt, Read, Reached;
    SpaceApart(w, w', base, c, b);
    var f := Map(w, base, c);
    var s := Seen(w', base, outside, f, virt, n);
    var r := Fetched(MemoryForCopy(w', base, c, b, n), base, outside, MapForCopy(w', base, c, b), b, virt, n);
    forall i | 0 <= i < n && 0 !in s[..i]
      ensures r[i] == s[i]
    {
      ReachedApart(w, w', base, outside, f, b, virt, n, i);
      SpoiltApart(w, w', base, c, b, n, Place(f, virt, i));
      SamePlaces(w', base, c, b, virt, i);
      FetchedAsSeen(w', base, c, outside, b, virt, n, i);
    }
    PaddedAgree(s, r);
  }

  lemma ReachedApart(w: seq<Word>, w': seq<Word>, base: nat, outside: Word -> Byte, f: seq<Word>, b: nat,
                     virt: Word, n: nat, i: nat)
    requires |f| == PAGES && SameOutside(w, w', b) && i <= n && 0 !in Seen(w', base, outside, f, virt, n)[..i]
    ensures Reached(w, base, outside, f, b, virt, i)
  {
    hide Place, Read, SameOutside;
    var s := Seen(w', base, outside, f, virt, n);
    forall j: nat | j < i && !InBlock(base, b, Place(f, virt, j))
      ensures Read(w, base, outside, Place(f, virt, j)) != 0
    {
      ReadApart(w, w', base, outside, b, Place(f, virt, j));
      assert s[..i][j] == s[j];
    }
  }

  /** Block b filled with ones, but for its byte o */
  ghost function Filled(w: seq<Word>, b: nat, o: nat, y: Byte): (r: seq<Word>)
    requires InPool(w, b) && o < PAGE_SIZE
    ensures |r| == |w|
  {
    var ones := seq(|w|, k requires 0 <= k < |w| => if k / ENTRIES == b then 0x01010101 else w[k]);
    var k := b * ENTRIES + o / 4;
    ones[k := SetByte(ones[k], o % 4, y)]
  }

  lemma FilledBytes(w: seq<Word>, b: nat, o: nat, y: Byte)
    requires InPool(w, b) && o < PAGE_SIZE
    ensures SameOutside(w, Filled(w, b, o, y), b)
    ensures forall k | b * PAGE_SIZE <= k < (b + 1) * PAGE_SIZE ::
              PoolByte(Filled(w, b, o, y), k) == if k == b * PAGE_SIZE + o then y else 1
  {
    hide GetByte, SetByte;
    var ones := seq(|w|, k requires 0 <= k < |w| => if k / ENTRIES == b then 0x01010101 else w[k]);
    var at := b * PAGE_SIZE + o;
    assert at / 4 == b * ENTRIES + o / 4 && at % 4 == o % 4;
    StoreByte(ones, at, y);
    Ones();
    forall k | b * PAGE_SIZE <= k < (b + 1) * PAGE_SIZE
      ensures PoolByte(ones, k) == 1
    {
      assert k / 4 / ENTRIES == b;
    }
  }

  lemma Ones()
    ensures forall k: nat | k < 4 :: GetByte(0x01010101, k) == 1
  {
    assert GetByte(0x01010101, 0) == 1;
    assert GetByte(0x01010101, 1) == GetByte(0x010101, 0) == 1;
    assert GetByte(0x01010101, 2) == GetByte(0x010101, 1) == GetByte(0x0101, 0) == 1;
    assert GetByte(0x01010101, 3) == GetByte(0x010101, 2) == GetByte(0x0101, 1) == GetByte(0x01, 0) == 1;
  }

  /** The byte the copy gets instead of a spoilt one: a NUL, a byte of the string already written,
      or one of the new entry. */
  lemma SpoiltIsOther(w: seq<Word>, base: nat, c: int, outside: Word -> Byte, b: nat, virt: Word, n: nat, i: nat,
                      s: seq<Byte>, r: seq<Byte>)
    requires IsSpace(w, base, c) && !InSpace(w, base, c, b) && InPool(w, b) && i < n <= PAGE_SIZE
    requires base % PAGE_SIZE == 0 && TempIsIdentity(w, base, c, b)
    requires s == Seen(w, base, outside, Map(w, base, c), virt, n)
    requires r == Fetched(MemoryForCopy(w, base, c, b, n), base, outside, MapForCopy(w, base, c, b), b, virt, n)
    requires r[..i] == s[..i] && Spoilt(w, base, c, b, n, Place(Map(w, base, c), virt, i))
    requires var a := Place(Map(w, base, c), virt, i);
             var o := a - (base + b * PAGE_SIZE);
             InFirst(base, b, n, a) ==> s[i] != if o < i then s[o] else 0
    ensures r[i] != s[i]
  {
    hide IsSpace, InSpace, Place, MemoryForCopy, MapForCopy, Map, Slot, PageEntry, GetByte, TempIsIdentity;
    var a := Place(Map(w, base, c), virt, i);
    SamePlaces(w, base, c, b, virt, i);
    ReadForCopy(w, base, c, outside, b, n, a);
    FetchedAt(MemoryForCopy(w, base, c, b, n), base, outside, MapForCopy(w, base, c, b), b, virt, n, i);
    if InFirst(base, b, i, a) {
      assert r[..i][a - (base + b * PAGE_SIZE)] == s[..i][a - (base + b * PAGE_SIZE)];
    }
  }

  /** A byte of block b to be put at offset o, so that character i of the string is not the one
      that is fetched for it */
  ghost function OtherByte(w: seq<Word>, base: nat, outside: Word -> Byte, f: seq<Word>, b: nat, virt: Word,
                           i: nat, o: nat): (y: Byte)
    requires |f| == PAGES && InPool(w, b)
    ensures y == 1 || y == 2
  {
    if o < i && Read(Filled(w, b, 0, 1), base, outside, Place(f, virt, o)) == 1 then 2 else 1
  }

  /** Before byte i the string has no NUL, and byte i is not what is fetched. */
  lemma FilledString(w: seq<Word>, base: nat, outside: Word -> Byte, f: seq<Word>, b: nat, virt: Word, n: nat,
                     i: nat, o: nat, w': seq<Word>)
    requires |f| == PAGES && InPool(w, b) && i < n <= PAGE_SIZE && o < PAGE_SIZE
    requires Reached(w, base, outside, f, b, virt, i)
    requires forall j: nat | j < i :: !InFirst(base, b, n, Place(f, virt, j))
    requires w' == Filled(w, b, o, OtherByte(w, base, outside, f, b, virt, i, o))
    ensures var s := Seen(w', base, outside, f, virt, n);
            && 0 !in s[..i]
            && (o < n && Place(f, virt, i) == base + b * PAGE_SIZE + o ==> s[i] != if o < i then s[o] else 0)
  {
    hide Place, GetByte, Filled, SameOutside, PoolByte;
    var y := OtherByte(w, base, outside, f, b, virt, i, o);
    var w1 := Filled(w, b, 0, 1);
    FilledBytes(w, b, o, y);
    FilledBytes(w, b, 0, 1);
    var s := Seen(w', base, outside, f, virt, n);
    forall j: nat | j < i
      ensures s[j] != 0 && (j == o < n ==> s[j] == Read(w1, base, outside, Place(f, virt, j)))
    {
      FilledByte(w, base, outside, b, o, y, Place(f, virt, j));
      FilledByte(w, base, outside, b, 0, 1, Place(f, virt, j));
    }
    FilledByte(w, base, outside, b, o, y, Place(f, virt, i));
  }

  lemma FilledByte(w: seq<Word>, base: nat, outside: Word -> Byte, b: nat, o: nat, y: Byte, a: Word)
    requires InPool(w, b) && o < PAGE_SIZE
    ensures Read(Filled(w, b, o, y), base, outside, a)
         == if !InBlock(base, b, a) then Read(w, base, outside, a)
            else if a == base + b * PAGE_SIZE + o then y else 1
  {
    hide GetByte, Filled, PoolByte;
    FilledBytes(w, b, o, y);
    if !InBlock(base, b, a) {
      ReadApart(w, Filled(w, b, o, y), base, outside, b, a);
    }
  }

  /** The first spoilt byte is not delivered for some content of the block. */
  lemma SpoiltMisses(w: seq<Word>, base: nat, c: int, outside: Word -> Byte, b: nat, virt: Word, n: nat, i: nat)
    requires IsSpace(w, base, c) && !InSpace(w, base, c, b) && InPool(w, b) && i < n <= PAGE_SIZE
    requires base % PAGE_SIZE == 0 && TempIsIdentity(w, base, c, b)
    requires var f := Map(w, base, c);
             && Reached(w, base, outside, f, b, virt, i) && Spoilt(w, base, c, b, n, Place(f, virt, i))
             && forall j: nat | j < i :: !Spoilt(w, base, c, b, n, Place(f, virt, j))
    ensures !RightForEveryContent(w, base, c, outside, b, virt, n)
  {
    hide IsSpace, InSpace, Map, Place, Padded, Fetched, Seen, MemoryForCopy, MapForCopy, Read, Reached, Filled,
         OtherByte, InEntry, PageEntry, GetByte, PoolByte;
    var f := Map(w, base, c);
    var a := Place(f, virt, i);
    var o := if InFirst(base, b, n, a) then a - (base + b * PAGE_SIZE) else 0;
    var y := OtherByte(w, base, outside, f, b, virt, i, o);
    var w' := Filled(w, b, o, y);
    FilledBytes(w, b, o, y);
    SpaceApart(w, w', base, c, b);
    FilledString(w, base, outside, f, b, virt, n, i, o, w');
    var s := Seen(w', base, outside, f, virt, n);
    var r := Fetched(MemoryForCopy(w', base, c, b, n), base, outside, MapForCopy(w', base, c, b), b, virt, n);
    forall j | 0 <= j < i
      ensures r[j] == s[j]
    {
      SpoiltApart(w, w', base, c, b, n, Place(f, virt, j));
      SamePlaces(w', base, c, b, virt, j);
      FetchedAsSeen(w', base, c, outside, b, virt, n, j);
    }
    assert r[..i] == s[..i];
    SpoiltApart(w, w', base, c, b, n, a);
    SpoiltIsOther(w', base, c, outside, b, virt, n, i, s, r);
    PaddedDiffer(s, r, i);
  }

  lemma {:induction false} RightNotSpoilt(w: seq<Word>, base: nat, c: int, outside: Word -> Byte, b: nat, virt: Word,
                                          n: nat, k: nat)
    requires IsSpace(w, base, c) && !InSpace(w, base, c, b) && InPool(w, b) && k <= n <= PAGE_SIZE
    requires base % PAGE_SIZE == 0 && TempIsIdentity(w, base, c, b)
    requires RightForEveryContent(w, base, c, outside, b, virt, n)
    ensures var f := Map(w, base, c);
            forall i: nat | i < k && Reached(w, base, outside, f, b, virt, i) ::
              !Spoilt(w, base, c, b, n, Place(f, virt, i))
  {
    hide IsSpace, InSpace, Map, Place, Spoilt, RightForEveryContent, TempIsIdentity, Read, InBlock;
    if k > 0 {
      RightNotSpoilt(w, base, c, outside, b, virt, n, k - 1);
      var f := Map(w, base, c);
      if Reached(w, base, outside, f, b, virt, k - 1) && Spoilt(w, base, c, b, n, Place(f, virt, k - 1)) {
        forall j: nat | j < k - 1
          ensures !Spoilt(w, base, c, b, n, Place(f, virt, j))
        {
          assert Reached(w, base, outside, f, b, virt, j);
        }
        SpoiltMisses(w, base, c, outside, b, virt, n, k - 1);
      }
    }
  }

  /** With the temporary page mapped to itself, the string is delivered for every content of the
      page if and only if no byte up to its first NUL off the page is one that taking the page
      changes. */
  lemma DeliveredIffUnspoilt(w: seq<Word>, base: nat, c: int, outside: Word -> Byte, b: nat, virt: Word, n: nat)
    requires IsSpace(w, base, c) && !InSpace(w, base, c, b) && InPool(w, b) && n <= PAGE_SIZE
    requires base % PAGE_SIZE == 0 && TempIsIdentity(w, base, c, b)
    ensures RightForEveryContent(w, base, c, outside, b, virt, n) <==> Unspoilt(w, base, c, outside, b, virt, n)
  {
    hide IsSpace, InSpace, Map, Place, Spoilt, Mask, Reached, Delivered, Seen, Padded, SameOutside;
    if Unspoilt(w, base, c, outside, b, virt, n) {
      forall w' | SameOutside(w, w', b) && IsSpace(w', base, c)
        ensures Delivered(w', base, c, outside, b, virt, n)
             == Padded(Seen(w', base, outside, Map(w', base, c), virt, n))
      {
        UnspoiltDelivers(w, w', base, c, outside, b, virt, n);
      }
    }
    if RightForEveryContent(w, base, c, outside, b, virt, n) {
      RightNotSpoilt(w, base, c, outside, b, virt, n, n);
    }
  }

  // ------------------------------------------------------------- strings that are changed

  lemma PlaceOnTemp(w: seq<Word>, base: nat, c: int, b: nat, virt: Word, i: nat, o: nat)
    requires IsSpace(w, base, c) && base % PAGE_SIZE == 0 && base / PAGE_SIZE + b < PAGES && o < PAGE_SIZE
    requires virt + i == base + b * PAGE_SIZE + o
    ensures Place(MapForCopy(w, base, c, b), virt, i) == base + b * PAGE_SIZE + o
  {
    hide IsSpace, Map, Mask, PageEntry;
    var p := base / PAGE_SIZE + b;
    assert virt + i == p * PAGE_SIZE + o;
    Quotient(virt + i, PAGE_SIZE, p, o);
    EntryAddress(p, USER_FLAGS);
  }

  /** A string that starts in the cleared part of the temporary page is delivered empty. */
  lemma DeliveredEmpty(w: seq<Word>, base: nat, c: int, outside: Word -> Byte, b: nat, virt: Word, n: nat)
    requires IsSpace(w, base, c) && !InSpace(w, base, c, b) && InPool(w, b) && n <= PAGE_SIZE
    requires base % PAGE_SIZE == 0 && base / PAGE_SIZE + b < PAGES && InFirst(base, b, n, virt)
    ensures forall i | 0 <= i < n :: Delivered(w, base, c, outside, b, virt, n)[i] == 0
  {
    hide IsSpace, InSpace, Map, Place, MemoryForCopy, MapForCopy, Read, InEntry, PageEntry, GetByte;
    var r := Fetched(MemoryForCopy(w, base, c, b, n), base, outside, MapForCopy(w, base, c, b), b, virt, n);
    PlaceOnTemp(w, base, c, b, virt, 0, virt - base - b * PAGE_SIZE);
    ReadForCopy(w, base, c, outside, b, n, virt);
    FetchedAt(MemoryForCopy(w, base, c, b, n), base, outside, MapForCopy(w, base, c, b), b, virt, n, 0);
    forall i | 0 < i < n
      ensures 0 in r[..i]
    {
      assert r[..i][0] == 0;
    }
  }

  /** So it is lost, if the page is mapped to itself and the string is not empty. */
  lemma StringOnTempPageLost(w: seq<Word>, base: nat, c: int, outside: Word -> Byte, b: nat, virt: Word, n: nat)
    requires IsSpace(w, base, c) && !InSpace(w, base, c, b) && InPool(w, b) && n <= PAGE_SIZE
    requires base % PAGE_SIZE == 0 && TempIsIdentity(w, base, c, b) && InFirst(base, b, n, virt)
    requires PoolByte(w, virt - base) != 0
    ensures Delivered(w, base, c, outside, b, virt, n)[0] == 0
    ensures Seen(w, base, outside, Map(w, base, c), virt, n)[0] == PoolByte(w, virt - base)
    ensures Delivered(w, base, c, outside, b, virt, n) != Padded(Seen(w, base, outside, Map(w, base, c), virt, n))
  {
    hide IsSpace, InSpace, Map, Place, MapForCopy, Delivered, Mask, PoolByte;
    DeliveredEmpty(w, base, c, outside, b, virt, n);
    SamePlaces(w, base, c, b, virt, 0);
    PlaceOnTemp(w, base, c, b, virt, 0, virt - base - b * PAGE_SIZE);
  }

  /** A string that starts k bytes before the temporary page meets there its own first bytes: the
      first k characters are delivered again and again. */
  lemma StringBeforeTempPageRepeats(w: seq<Word>, base: nat, c: int, outside: Word -> Byte, b: nat, virt: Word,
                                    n: nat, k: nat)
    requires IsSpace(w, base, c) && base % PAGE_SIZE == 0 && base / PAGE_SIZE + b < PAGES && n <= PAGE_SIZE
    requires 0 < k <= n && virt + k == base + b * PAGE_SIZE
    ensures var r := Delivered(w, base, c, outside, b, virt, n);
            forall i | k <= i < n :: r[i] == if 0 in r[..k] then 0 else r[i - k]
  {
    hide IsSpace, Map, Place, MemoryForCopy, MapForCopy, Read;
    var r := Fetched(MemoryForCopy(w, base, c, b, n), base, outside, MapForCopy(w, base, c, b), b, virt, n);
    forall i | k <= i < n
      ensures r[i] == r[i - k]
    {
      PlaceOnTemp(w, base, c, b, virt, i, i - k);
      FetchedAt(MemoryForCopy(w, base, c, b, n), base, outside, MapForCopy(w, base, c, b), b, virt, n, i);
    }
    PaddedPeriodic(r, k);
  }

  lemma PaddedPeriodic(s: seq<Byte>, k: nat)
    requires 0 < k <= |s| && forall i | k <= i < |s| :: s[i] == s[i - k]
    ensures var r := Padded(s); forall i | k <= i < |s| :: r[i] == if 0 in r[..k] then 0 else r[i - k]
  {
    var r := Padded(s);
    NulAgree(s, r, k);
    if 0 in s[..k] {
      forall i | k <= i < |s|
        ensures 0 in s[..i]
      {
        assert s[..k] <= s[..i];
      }
    } else {
      forall i | 0 <= i <= |s|
        ensures 0 !in s[..i]
      {
        NoNulPeriodic(s, k, i);
      }
    }
  }

  lemma {:induction false} NoNulPeriodic(s: seq<Byte>, k: nat, i: nat)
    requires 0 < k <= |s| && i <= |s| && 0 !in s[..k] && forall j | k <= j < |s| :: s[j] == s[j - k]
    ensures 0 !in s[..i]
  {
    if i <= k {
      assert s[..i] <= s[..k];
    } else {
      NoNulPeriodic(s, k, i - 1);
      assert s[i - 1] == s[i - 1 - k] == s[..i - 1][i - 1 - k];
      assert s[..i] == s[..i - 1] + [s[i - 1]];
    }
  }

  /** One that lies on the page behind its cleared part is delivered, whatever it is. */
  lemma StringHighOnTempPageDelivered(w: seq<Word>, base: nat, c: int, outside: Word -> Byte, b: nat,
                                      virt: Word, n: nat)
    requires IsSpace(w, base, c) && !InSpace(w, base, c, b) && InPool(w, b) && n <= PAGE_SIZE
    requires base % PAGE_SIZE == 0 && TempIsIdentity(w, base, c, b)
    requires base + b * PAGE_SIZE + n <= virt && virt + n <= base + (b + 1) * PAGE_SIZE
    ensures RightForEveryContent(w, base, c, outside, b, virt, n)
  {
    hide IsSpace, InSpace, Map, Place, MapForCopy, RightForEveryContent, Mask, InEntry, GetByte, PageEntry;
    forall i: nat | i < n
      ensures !Spoilt(w, base, c, b, n, Place(Map(w, base, c), virt, i))
    {
      SamePlaces(w, base, c, b, virt, i);
      PlaceOnTemp(w, base, c, b, virt, i, virt + i - base - b * PAGE_SIZE);
      ReadForCopy(w, base, c, _ => 0, b, n, virt + i);
    }
    DeliveredIffUnspoilt(w, base, c, outside, b, virt, n);
  }
}

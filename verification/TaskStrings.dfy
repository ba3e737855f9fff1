/** copy_string_from_task (src/task/task.c:142-177): a string read through the task's
    page directory into a temporary page, and from there into a kernel buffer. */
module TaskStrings {
  import opened Words
  import opened Arithmetic
  import opened HeapTable
  import opened Heaps
  import opened KHeap
  import opened PageTables
  import opened Paging
  import opened AddressSpace
  import opened PoolBytes
  import opened StringCopies

  // ------------------------------------------------------------- the two copies

  /** A byte read by an instruction running on the task's page directory */
  method Load(heap: Heap, chunk: Word, v: Word, outside: Word -> Byte) returns (c: Byte)
    requires heap.Layout() && SpaceAt(heap, chunk)
    ensures c == Read(heap.pool[..], heap.saddr, outside, Translate(SpaceMap(heap, chunk), v))
  {
    hide Translate, GetByte, InSpace;
    var directory := heap.pool[(chunk - heap.saddr) / 4];
    ghost var d := DirectoryBlock(heap, chunk);
    assert directory == heap.saddr + d * PAGE_SIZE && heap.Block(directory) == d;
    var a := GetPhysicalAddress(heap, directory, v);
    if heap.saddr <= a < heap.saddr + heap.pool.Length * 4 {
      c := GetByte(heap.pool[(a - heap.saddr) / 4], (a - heap.saddr) % 4);
    } else {
      c := outside(a);
    }
  }

  /** A byte written by it, when the address translates into block b of the heap */
  method Store(heap: Heap, chunk: Word, v: Word, c: Byte, ghost b: nat)
    requires heap.Layout() && SpaceAt(heap, chunk) && InPool(heap.pool[..], b)
    requires InBlock(heap.saddr, b, Translate(SpaceMap(heap, chunk), v))
    modifies heap.pool
    ensures SameOutside(old(heap.pool[..]), heap.pool[..], b)
    ensures Stored(old(heap.pool[..]), heap.pool[..], old(Translate(SpaceMap(heap, chunk), v)) - heap.saddr, c)
  {
    hide Translate, GetByte, SetByte, InSpace, Stored;
    ghost var w := heap.pool[..];
    var directory := heap.pool[(chunk - heap.saddr) / 4];
    ghost var d := DirectoryBlock(heap, chunk);
    assert directory == heap.saddr + d * PAGE_SIZE && heap.Block(directory) == d;
    var a := GetPhysicalAddress(heap, directory, v);
    var k := a - heap.saddr;
    heap.pool[k / 4] := SetByte(heap.pool[k / 4], k % 4, c);
    StoreByte(w, k, c);
    assert heap.pool[..] == w[k / 4 := SetByte(w[k / 4], k % 4, c)];
    assert k / 4 / ENTRIES == b;
  }

  lemma TempTranslates(f: seq<Word>, base: nat, b: nat, tmp: Word, i: nat)
    requires |f| == PAGES && base % PAGE_SIZE == 0 && tmp == base + b * PAGE_SIZE && i < PAGE_SIZE
    requires f[tmp / PAGE_SIZE] == PageEntry(tmp / PAGE_SIZE, USER_FLAGS)
    ensures tmp + i < WORD_LIMIT && Translate(f, tmp + i) == tmp + i && InBlock(base, b, tmp + i)
  {
    hide PageEntry;
    var p := tmp / PAGE_SIZE;
    assert tmp == p * PAGE_SIZE && (tmp + i) / PAGE_SIZE == p && (tmp + i) % PAGE_SIZE == i;
    EntryAddress(p, USER_FLAGS);
  }

  /** The first i bytes of block b are those of p, and no other byte differs. */
  ghost predicate Overwritten(w: seq<Word>, w': seq<Word>, b: nat, p: seq<Byte>, i: nat) {
    && i <= |p| <= PAGE_SIZE && InPool(w, b) && SameOutside(w, w', b)
    && forall k | 0 <= k < |w| * 4 ::
         PoolByte(w', k) == if b * PAGE_SIZE <= k < b * PAGE_SIZE + i then p[k - b * PAGE_SIZE] else PoolByte(w, k)
  }

  lemma NothingOverwritten(w: seq<Word>, b: nat, p: seq<Byte>)
    requires InPool(w, b) && |p| <= PAGE_SIZE
    ensures Overwritten(w, w, b, p, 0)
  {
  }

  lemma OneMoreOverwritten(w: seq<Word>, w': seq<Word>, w'': seq<Word>, b: nat, p: seq<Byte>, i: nat)
    requires Overwritten(w, w', b, p, i) && i < |p| && SameOutside(w', w'', b)
    requires Stored(w', w'', b * PAGE_SIZE + i, p[i])
    ensures Overwritten(w, w'', b, p, i + 1)
  {
    hide PoolByte;
  }

  lemma AllOverwritten(w: seq<Word>, w': seq<Word>, b: nat, p: seq<Byte>)
    requires Overwritten(w, w', b, p, |p|)
    ensures InPool(w', b) && Bytes(w', b, |p|) == p
  {
    hide PoolByte;
    forall i | 0 <= i < |p|
      ensures Bytes(w', b, |p|)[i] == p[i]
    {
      assert Bytes(w', b, |p|)[i] == PoolByte(w', b * PAGE_SIZE + i);
    }
  }

  /** The byte read while i bytes have been written is the one that is fetched. */
  lemma NextFetched(w: seq<Word>, w': seq<Word>, base: nat, outside: Word -> Byte, f: seq<Word>, b: nat,
                    virt: Word, n: nat, i: nat)
    requires |f| == PAGES && i < n
    requires var s := Fetched(w, base, outside, f, b, virt, n);
             0 !in s[..i] && Overwritten(w, w', b, Padded(s), i)
    ensures Read(w', base, outside, Place(f, virt, i)) == Fetched(w, base, outside, f, b, virt, n)[i]
  {
    hide Place, PoolByte, Fetched;
    var s, a := Fetched(w, base, outside, f, b, virt, n), Place(f, virt, i);
    FetchedAt(w, base, outside, f, b, virt, n, i);
    if InFirst(base, b, i, a) {
      var o := a - (base + b * PAGE_SIZE);
      assert s[..o] <= s[..i];
      assert Padded(s)[o] == s[o];
    }
  }

  /** Byte i of the temporary block is written, on a space that has kept its tables since w. */
  method PutIn(heap: Heap, chunk: Word, tmp: Word, i: nat, c: Byte,
               ghost b: nat, ghost w: seq<Word>, ghost p: seq<Byte>)
    requires heap.Layout() && IsBlock(heap, chunk) && IsSpace(w, heap.saddr, heap.Block(chunk))
    requires !InSpace(w, heap.saddr, heap.Block(chunk), b)
    requires tmp == heap.Address(b) && Overwritten(w, heap.pool[..], b, p, i) && i < |p| && c == p[i]
    requires Map(w, heap.saddr, heap.Block(chunk))[tmp / PAGE_SIZE] == PageEntry(tmp / PAGE_SIZE, USER_FLAGS)
    modifies heap.pool
    ensures Overwritten(w, heap.pool[..], b, p, i + 1)
  {
    hide IsSpace, InSpace, Map, Translate, Stored, InBlock, PageEntry, PoolByte;
    ghost var w' := heap.pool[..];
    SpaceApart(w, w', heap.saddr, heap.Block(chunk), b);
    TempTranslates(Map(w, heap.saddr, heap.Block(chunk)), heap.saddr, b, tmp, i);
    Store(heap, chunk, tmp + i, c, b);
    OneMoreOverwritten(w, w', heap.pool[..], b, p, i);
  }

  /** strncpy run on the task's page directory into block b, which the map sends to
      itself: every byte read and written goes through the page tables. */
  method CopyIn(heap: Heap, chunk: Word, tmp: Word, virt: Word, count: Word, outside: Word -> Byte, ghost b: nat)
    requires heap.Layout() && SpaceAt(heap, chunk)
    requires InPool(heap.pool[..], b) && tmp == heap.Address(b) && count <= PAGE_SIZE
    requires !InSpace(heap.pool[..], heap.saddr, heap.Block(chunk), b)
    requires SpaceMap(heap, chunk)[tmp / PAGE_SIZE] == PageEntry(tmp / PAGE_SIZE, USER_FLAGS)
    modifies heap.pool
    ensures SameOutside(old(heap.pool[..]), heap.pool[..], b) && InPool(heap.pool[..], b)
    ensures Bytes(heap.pool[..], b, count)
         == Padded(Fetched(old(heap.pool[..]), heap.saddr, outside, old(SpaceMap(heap, chunk)), b, virt, count))
  {
    hide IsSpace, InSpace, Map, Translate, Read, PageEntry, PoolByte, Overwritten, Padded, Fetched, Bytes, SameOutside;
    ghost var w, base, f := heap.pool[..], heap.saddr, SpaceMap(heap, chunk);
    ghost var s := Fetched(w, base, outside, f, b, virt, count);
    ghost var p := Padded(s);
    var i := 0;
    NothingOverwritten(w, b, p);
    while i < count
      invariant 0 <= i <= count && 0 !in s[..i]
      invariant Overwritten(w, heap.pool[..], b, p, i)
    {
      OutsideOverwritten(w, heap.pool[..], b, p, i);
      SpaceApart(w, heap.pool[..], base, heap.Block(chunk), b);
      var c := Load(heap, chunk, (virt + i) % WORD_LIMIT, outside);
      NextFetched(w, heap.pool[..], base, outside, f, b, virt, count, i);
      if c == 0 {
        break;
      }
      PaddedBefore(s, i);
      PutIn(heap, chunk, tmp, i, c, b, w, p);
      i := i + 1;
    }
    ghost var stop := i;
    while i < count
      invariant stop <= i <= count && (stop < count ==> s[stop] == 0)
      invariant Overwritten(w, heap.pool[..], b, p, i)
    {
      PaddedBehind(s, stop, i);
      PutIn(heap, chunk, tmp, i, 0, b, w, p);
      i := i + 1;
    }
    OutsideOverwritten(w, heap.pool[..], b, p, count);
    AllOverwritten(w, heap.pool[..], b, p);
  }

  lemma OutsideOverwritten(w: seq<Word>, w': seq<Word>, b: nat, p: seq<Byte>, i: nat)
    requires Overwritten(w, w', b, p, i)
    ensures SameOutside(w, w', b)
  {
  }

  lemma PaddedBefore(s: seq<Byte>, i: nat)
    requires i < |s| && 0 !in s[..i]
    ensures Padded(s)[i] == s[i]
  {
  }

  lemma PaddedBehind(s: seq<Byte>, stop: nat, i: nat)
    requires stop <= i < |s| && s[stop] == 0
    ensures Padded(s)[i] == 0
  {
    if stop < i {
      assert s[..i][stop] == 0;
    }
  }

  // ------------------------------------------------------------- the whole call

  /** The second strncpy of copy_string_from_task, on the kernel's own directory */
  method CopyOut(heap: Heap, tmp: Word, dest: array<Byte>, count: Word, ghost b: nat)
    requires heap.Layout() && InPool(heap.pool[..], b) && tmp == heap.Address(b)
    requires count <= PAGE_SIZE && count <= dest.Length && dest as object != heap.pool
    modifies dest
    ensures dest[..] == Padded(Bytes(heap.pool[..], b, count)) + old(dest[count..])
  {
    hide GetByte;
    ghost var s, rest := Bytes(heap.pool[..], b, count), dest[count..];
    var first := tmp - heap.saddr;
    var i := 0;
    while i < count
      invariant 0 <= i <= count && 0 !in s[..i]
      invariant dest[count..] == rest && dest[..i] == s[..i]
    {
      var c := GetByte(heap.pool[(first + i) / 4], (first + i) % 4);
      assert c == PoolByte(heap.pool[..], first + i) == s[i];
      if c == 0 {
        break;
      }
      dest[i] := c;
      i := i + 1;
    }
    ghost var stop := i;
    while i < count
      invariant stop <= i <= count
      invariant dest[count..] == rest && dest[..stop] == s[..stop]
      invariant forall j | stop <= j < i :: dest[j] == 0
    {
      dest[i] := 0;
      i := i + 1;
    }
    CutAndPadded(s, dest[..count], stop);
  }

  lemma BlockApart(w: seq<Word>, base: nat, c: int, live: Chains, b: nat)
    requires IsSpace(w, base, c) && SpaceLive(w, base, c, live) && b !in live
    ensures !InSpace(w, base, c, b)
  {
  }

  lemma TempEntry(base: nat, b: nat, tmp: Word)
    requires base % PAGE_SIZE == 0 && tmp == base + b * PAGE_SIZE
    ensures tmp / PAGE_SIZE == base / PAGE_SIZE + b < PAGES && tmp % PAGE_SIZE == 0
    ensures Tag(tmp, USER_FLAGS) == PageEntry(tmp / PAGE_SIZE, USER_FLAGS)
  {
    var p := base / PAGE_SIZE + b;
    assert tmp == p * PAGE_SIZE;
    Quotient(tmp, PAGE_SIZE, p, 0);
    assert p % PAGES == p;
  }

  /** Writing an entry moves none. */
  lemma SlotAfterSet(w: seq<Word>, base: nat, c: int, b: int, p: int, val: Word)
    requires IsSpace(w, base, c) && !InSpace(w, base, c, b) && 0 <= p < PAGES
    ensures var d := DirectoryOf(w, base, c);
            var w' := w[Slot(w, base, d, p) := val];
            && IsSpace(w', base, c) && DirectoryOf(w', base, c) == d && !InSpace(w', base, c, b)
            && Slot(w', base, d, p) == Slot(w, base, d, p)
  {
    hide IsDirectory, InSpace, IsTable;
    var d := DirectoryOf(w, base, c);
    var w' := w[Slot(w, base, d, p) := val];
    SetOnePage(w, base, d, p, val);
    TablesOnlyKeepsSpace(w, w', base, c);
    TablesOnlyKeepsDirectory(w, w', base, d);
  }

  /** The entry restored after the copy: only the temporary block has changed. */
  lemma AfterRestoring(w0: seq<Word>, w1: seq<Word>, w2: seq<Word>, w3: seq<Word>, w4: seq<Word>, b: nat, k: nat)
    requires SameOutside(w0, w1, b) && k < |w1| && k / ENTRIES != b
    requires |w2| == |w1| && w2 == w1[k := w2[k]] && SameOutside(w2, w3, b) && w4 == w3[k := w1[k]]
    ensures SameOutside(w0, w4, b) && SameBlock(w3, w4, b)
  {
  }

  /** paging_get on the directory of the task's space */
  method GetEntry(heap: Heap, chunk: Word, virt: Word) returns (entry: Word)
    requires heap.Layout() && SpaceAt(heap, chunk) && virt % PAGE_SIZE == 0
    ensures entry == SpaceMap(heap, chunk)[virt / PAGE_SIZE]
  {
    var directory := heap.pool[(chunk - heap.saddr) / 4];
    ghost var d := DirectoryBlock(heap, chunk);
    assert directory == heap.saddr + d * PAGE_SIZE && heap.Block(directory) == d;
    entry := Get(heap, directory, virt);
  }

  /** paging_set on it; an aligned address is never refused. */
  method SetEntry(heap: Heap, chunk: Word, virt: Word, val: Word) returns (res: int)
    requires heap.Layout() && SpaceAt(heap, chunk) && virt % PAGE_SIZE == 0
    modifies heap.pool
    ensures res == 0
    ensures Remapped(old(heap.pool[..]), heap.pool[..], heap.saddr, heap.Block(chunk),
                     old(SpaceMap(heap, chunk))[virt / PAGE_SIZE := val])
    ensures heap.pool[..] == old(heap.pool[..][Slot(heap.pool[..], heap.saddr, DirectoryBlock(heap, chunk),
                                                    virt / PAGE_SIZE) := val])
  {
    ghost var w, d := heap.pool[..], DirectoryBlock(heap, chunk);
    var directory := heap.pool[(chunk - heap.saddr) / 4];
    assert directory == heap.saddr + d * PAGE_SIZE && heap.Block(directory) == d;
    res := Set(heap, directory, virt, val);
    TablesOnlyKeepsSpace(w, heap.pool[..], heap.saddr, heap.Block(chunk));
  }

  /** The memory and the map that paging_map leaves for the copy */
  lemma MappedForCopy(w0: seq<Word>, w1: seq<Word>, base: nat, c: int, b: nat, tmp: Word, n: nat)
    requires IsSpace(w0, base, c) && !InSpace(w0, base, c, b) && SameOutside(w0, w1, b)
    requires base % PAGE_SIZE == 0 && tmp == base + b * PAGE_SIZE && w1 == ZeroBytes(w0, b * ENTRIES, n)
    ensures IsSpace(w1, base, c) && Map(w1, base, c) == Map(w0, base, c) && base / PAGE_SIZE + b < PAGES
    ensures w1[Slot(w1, base, DirectoryOf(w1, base, c), tmp / PAGE_SIZE) := Tag(tmp, USER_FLAGS)]
         == MemoryForCopy(w0, base, c, b, n)
    ensures Map(w1, base, c)[tmp / PAGE_SIZE := Tag(tmp, USER_FLAGS)] == MapForCopy(w0, base, c, b)
    ensures Tag(tmp, USER_FLAGS) == PageEntry(tmp / PAGE_SIZE, USER_FLAGS)
  {
    hide IsSpace, InSpace, Map, ZeroBytes, PageEntry, Tag, Slot, DirectoryOf, SameOutside;
    TempEntry(base, b, tmp);
    SlotApart(w0, w1, base, c, b, tmp / PAGE_SIZE);
    SpaceApart(w0, w1, base, c, b);
  }

  /** copy_string_from_task between kzalloc and kfree; b is the temporary block, and w0 is the
      heap's memory before it was allocated. */
  method CopyWithTemp(heap: Heap, chunk: Word, tmp: Word, virt: Word, dest: array<Byte>, max: Word,
                      outside: Word -> Byte, ghost w0: seq<Word>, ghost b: nat)
    requires heap.Layout() && SpaceAt(heap, chunk)
    requires max < PAGE_SIZE && max <= dest.Length && dest as object != heap.pool
    requires b < heap.entries.Length && tmp == heap.Address(b)
    requires IsSpace(w0, heap.saddr, heap.Block(chunk)) && !InSpace(w0, heap.saddr, heap.Block(chunk), b)
    requires SameOutside(w0, heap.pool[..], b) && heap.pool[..] == ZeroBytes(w0, b * ENTRIES, max)
    modifies heap.pool, dest
    ensures SameOutside(w0, heap.pool[..], b)
    ensures SpaceAt(heap, chunk) && SpaceMap(heap, chunk) == Map(w0, heap.saddr, heap.Block(chunk))
    ensures dest[..] == Delivered(w0, heap.saddr, heap.Block(chunk), outside, b, virt, max) + old(dest[max..])
  {
    hide IsSpace, InSpace, Map, Padded, PageEntry, Tag, Read, IsDirectory, IsTable, Flat, OnlyTables, Fetched,
         SameOutside, PoolByte, Bytes, Slot, ZeroBytes, MemoryForCopy, MapForCopy;
    ghost var base, c, d := heap.saddr, heap.Block(chunk), DirectoryBlock(heap, chunk);
    ghost var w1, p := heap.pool[..], tmp / PAGE_SIZE;
    TempEntry(base, b, tmp);
    MappedForCopy(w0, w1, base, c, b, tmp, max);
    SlotApart(w0, w1, base, c, b, p);
    ghost var k := Slot(w1, base, d, p);
    FlatAt(w1, base, c, p);
    SlotAfterSet(w1, base, c, b, p, Tag(tmp, USER_FLAGS));
    var oldEntry := GetEntry(heap, chunk, tmp);
    var _ := MapPage(heap, chunk, tmp, tmp, USER_FLAGS);
    ghost var w2 := heap.pool[..];
    CopyIn(heap, chunk, tmp, virt, max, outside, b);
    ghost var w3 := heap.pool[..];
    SpaceApart(w2, w3, base, c, b);
    SlotApart(w2, w3, base, c, b, p);
    var _ := SetEntry(heap, chunk, tmp, oldEntry);
    ghost var w4 := heap.pool[..];
    AfterRestoring(w0, w1, w2, w3, w4, b, k);
    BytesKept(w3, w4, b, max);
    CopyOut(heap, tmp, dest, max, b);
    PaddedTwice(Fetched(w2, base, outside, MapForCopy(w0, base, c, b), b, virt, max));
  }

  lemma FlatAt(w: seq<Word>, base: nat, c: int, p: int)
    requires IsSpace(w, base, c) && 0 <= p < PAGES
    ensures IsDirectory(w, base, DirectoryOf(w, base, c))
    ensures Map(w, base, c)[p] == w[Slot(w, base, DirectoryOf(w, base, c), p)]
  {
  }

  /** First fit leaves no choice. */
  lemma LowestFitFound(t: Table, n: nat, b: nat)
    requires LowestFit(t, b, n)
    ensures forall b': nat | LowestFit(t, b', n) :: b' == b
  {
    forall b': nat | LowestFit(t, b', n)
      ensures b' == b
    {
      LowestFitUnique(t, n, b, b');
    }
  }

  /** copy_string_from_task. The heap's table, the space's flat map and every word of memory in
      use are afterwards as before. The buffer holds what `Delivered` says, which is the string
      the task sees if it is off the temporary page, or, with that page mapped to itself, has no
      spoilt byte. `DeliveredIffUnspoilt` shows that the latter is the exact condition. A string
      that starts in the first `max` bytes of the page is delivered empty. */
  method CopyStringFromTask(heap: Heap, chunk: Word, virt: Word, dest: array<Byte>, max: Word, outside: Word -> Byte)
    returns (res: int)
    requires heap.Valid() && SpaceAt(heap, chunk)
    requires SpaceLive(heap.pool[..], heap.saddr, heap.Block(chunk), heap.live)
    requires 0 < max <= dest.Length && dest as object != heap.pool && dest as object != heap.entries
    modifies heap.entries, heap`live, heap.pool, dest
    ensures res == if max >= PAGE_SIZE then -EINVARG
                   else if old(FreeCount(heap.entries[..])) == 0 then -ENOMEM else 0
    ensures heap.Valid() && heap.entries[..] == old(heap.entries[..]) && heap.live == old(heap.live)
    ensures SpaceAt(heap, chunk) && SpaceMap(heap, chunk) == old(SpaceMap(heap, chunk))
    ensures LiveWordsKept(old(heap.pool[..]), heap.pool[..], heap.live)
    ensures res < 0 ==> dest[..] == old(dest[..]) && heap.pool[..] == old(heap.pool[..])
    ensures res == 0 ==> dest[max..] == old(dest[max..])
    ensures forall b: nat | res == 0 && LowestFit(old(heap.entries[..]), b, 1) ::
              dest[..max] == Delivered(old(heap.pool[..]), heap.saddr, heap.Block(chunk), outside, b, virt, max)
    ensures var s := old(Seen(heap.pool[..], heap.saddr, outside, SpaceMap(heap, chunk), virt, max));
            res == 0 && old(Proper(heap.entries[..], heap.pool[..], heap.saddr, heap.Block(chunk), virt, s))
            ==> dest[..max] == Padded(s)
    ensures var w, base, c := old(heap.pool[..]), heap.saddr, heap.Block(chunk);
            forall b: nat | res == 0 && LowestFit(old(heap.entries[..]), b, 1) && TempIsIdentity(w, base, c, b)
                            && Unspoilt(w, base, c, outside, b, virt, max) ::
              dest[..max] == Padded(Seen(w, base, outside, Map(w, base, c), virt, max))
    ensures forall b: nat | res == 0 && LowestFit(old(heap.entries[..]), b, 1) && InFirst(heap.saddr, b, max, virt) ::
              forall i | 0 <= i < max :: dest[..max][i] == 0
  {
    hide IsSpace, InSpace, Map, SpaceLive, Represents, Proper, Padded, Covered, Seen, Delivered, ZeroBytes, Unspoilt,
         TempIsIdentity;
    if max >= PAGE_SIZE {
      return -EINVARG;
    }
    ghost var t, m := heap.entries[..], heap.live;
    ghost var w0, base, c := heap.pool[..], heap.saddr, heap.Block(chunk);
    var tmp := AllocPage(heap, max);
    if tmp == 0 {
      return -ENOMEM;
    }
    ghost var b := heap.Block(tmp);
    LowestFitFound(t, 1, b);
    BlockApart(w0, base, c, m, b);
    SpaceApart(w0, heap.pool[..], base, c, b);
    CopyWithTemp(heap, chunk, tmp, virt, dest, max, outside, w0, b);
    assert dest[..max] == Delivered(w0, base, c, outside, b, virt, max);
    KFree(heap, tmp);
    assert heap.live == m;
    TableUnique(t, heap.entries[..], m);
    DeliveredCases(t, w0, base, c, outside, b, virt, max);
    return 0;
  }

  /** When the string is delivered, and where it is delivered empty */
  lemma DeliveredCases(t: Table, w: seq<Word>, base: nat, c: int, outside: Word -> Byte, b: nat, virt: Word, n: nat)
    requires IsSpace(w, base, c) && !InSpace(w, base, c, b) && InPool(w, b) && n <= PAGE_SIZE
    requires base % PAGE_SIZE == 0 && base / PAGE_SIZE + b < PAGES && LowestFit(t, b, 1)
    ensures var s := Seen(w, base, outside, Map(w, base, c), virt, n);
            Proper(t, w, base, c, virt, s)
            || (TempIsIdentity(w, base, c, b) && Unspoilt(w, base, c, outside, b, virt, n))
            ==> Delivered(w, base, c, outside, b, virt, n) == Padded(s)
    ensures InFirst(base, b, n, virt) ==> forall i | 0 <= i < n :: Delivered(w, base, c, outside, b, virt, n)[i] == 0
  {
    hide IsSpace, InSpace, Map, Proper, Padded, Seen, Delivered, Unspoilt, TempIsIdentity, LowestFit;
    if Proper(t, w, base, c, virt, Seen(w, base, outside, Map(w, base, c), virt, n)) {
      OffPageDelivered(t, w, base, c, outside, b, virt, n);
    }
    if TempIsIdentity(w, base, c, b) && Unspoilt(w, base, c, outside, b, virt, n) {
      UnspoiltDelivers(w, w, base, c, outside, b, virt, n);
    }
    if InFirst(base, b, n, virt) {
      DeliveredEmpty(w, base, c, outside, b, virt, n);
    }
  }
}

/** Building and freeing a whole address space (src/memory/paging/paging.c:7-44),
    and its life between the two. */
module AddressSpace {
  import opened Arithmetic
  import opened Words
  import opened HeapTable
  import opened Heaps
  import opened KHeap
  import opened PageTables
  import opened Paging

  /** A directory, its 1024 tables and the chunk struct. */
  const SPACE_BLOCKS := 1026

  ghost predicate SameOutside(w: seq<Word>, w': seq<Word>, b: int) {
    && |w'| == |w|
    && forall k | 0 <= k < |w| && k / ENTRIES != b :: w'[k] == w[k]
  }

  /** Blocks in use keep their words. */
  ghost predicate LiveWordsKept(w: seq<Word>, w': seq<Word>, live: Chains) {
    && |w'| == |w|
    && forall k | 0 <= k < |w| && Covered(live, k / ENTRIES) :: w'[k] == w[k]
  }

  /** m' is m together with the blocks of the space, each a chain of its own. */
  ghost predicate AddsSpace(m: Chains, m': Chains, w: seq<Word>, base: nat, c: int)
    requires IsSpace(w, base, c)
  {
    && (forall b: nat :: b in m' <==> b in m || InSpace(w, base, c, b))
    && (forall b: nat | b in m :: !InSpace(w, base, c, b) && m'[b] == m[b])
    && (forall b: nat | InSpace(w, base, c, b) :: b in m' && m'[b] == 1)
  }

  lemma SpaceSubtracts(m: Chains, m': Chains, m'': Chains, w: seq<Word>, w': seq<Word>, base: nat, c: int)
    requires IsSpace(w, base, c) && IsSpace(w', base, c)
    requires forall b :: InSpace(w', base, c, b) <==> InSpace(w, base, c, b)
    requires AddsSpace(m, m', w, base, c) && AddsSpace(m'', m', w', base, c)
    ensures m'' == m
  {
    assert forall b: nat :: b in m'' <==> b in m;
  }

  /** kzalloc of at most one page: null exactly when no block is free. */
  method AllocPage(heap: Heap, size: Word) returns (ptr: Word)
    requires heap.Valid() && 0 < size <= BLOCK_SIZE
    modifies heap.entries, heap`live, heap.pool
    ensures heap.Valid()
    ensures ptr == 0 <==> old(FreeCount(heap.entries[..])) == 0
    ensures ptr == 0 ==> heap.entries[..] == old(heap.entries[..]) && heap.live == old(heap.live)
                         && heap.pool[..] == old(heap.pool[..])
    ensures ptr != 0 ==> IsBlock(heap, ptr) && ptr % PAGE_SIZE == 0
    ensures ptr != 0 ==>
              var b := heap.Block(ptr);
              && InPool(heap.pool[..], b)
              && LowestFit(old(heap.entries[..]), b, 1) && !Covered(old(heap.live), b)
              && b !in old(heap.live) && heap.live == old(heap.live)[b := 1]
              && FreeCount(heap.entries[..]) == old(FreeCount(heap.entries[..])) - 1
              && SameOutside(old(heap.pool[..]), heap.pool[..], b)
              && heap.pool[..] == ZeroBytes(old(heap.pool[..]), b * ENTRIES, size)
  {
    hide Represents;
    SingleBlockSafe(heap.entries[..]);
    ghost var t, m := heap.entries[..], heap.live;
    assert Blocks(size) == 1;
    ptr := KZAlloc(heap, size);
    if FreeCount(t) > 0 {
      OneBlock(heap, size, ptr, t, m, heap.entries[..], heap.live);
      FreeIsZero(t, m, heap.Block(ptr));
    }
  }

  // ------------------------------------------------------------- building

  /** Block b is the identity table of the 4 MiB region number i. */
  ghost predicate IdentityTable(w: seq<Word>, b: int, i: nat, flags: Word) {
    && InPool(w, b)
    && forall k | 0 <= k < ENTRIES :: BlockEntry(w, b, k) == PageEntry(i * ENTRIES + k, flags)
  }

  /** Entry j of the directory points at block b, which is the identity table of region j. */
  ghost predicate EntryBuilt(w: seq<Word>, base: nat, d: int, j: nat, b: nat, flags: Word) {
    && InPool(w, d) && j < ENTRIES && b != d
    && IdentityTable(w, b, j, flags)
    && Mask(BlockEntry(w, d, j)) == base + b * PAGE_SIZE
    && BlockEntry(w, d, j) == base + b * PAGE_SIZE + Or(flags, IS_WRITEABLE)
  }

  /** The first |tables| entries of the directory in block d are built. */
  ghost predicate Building(w: seq<Word>, base: nat, d: int, tables: seq<nat>, flags: Word) {
    && InPool(w, d) && |tables| <= ENTRIES
    && (forall j | 0 <= j < |tables| :: EntryBuilt(w, base, d, j, tables[j], flags))
    && (forall j, k | 0 <= j < k < |tables| :: tables[j] != tables[k])
  }

  ghost predicate IsIdentity(f: seq<Word>, flags: Word) {
    |f| == PAGES && forall p | 0 <= p < PAGES :: f[p] == PageEntry(p, flags)
  }

  /** Each directory entry is the address of its table with these flags and the writable bit: the
      table is present, writable, and for the user as the flags say. */
  ghost predicate DirectoryTagged(w: seq<Word>, base: nat, d: int, flags: Word)
    requires IsDirectory(w, base, d)
  {
    forall i | 0 <= i < ENTRIES :: TaggedEntry(w, base, d, i, flags)
  }

  ghost predicate TaggedEntry(w: seq<Word>, base: nat, d: int, i: nat, flags: Word)
    requires InPool(w, d) && i < ENTRIES
  {
    var entry := BlockEntry(w, d, i);
    && entry == base + TableBlock(w, base, d, i) * PAGE_SIZE + Or(flags, 2)
    && And(entry, 1) == And(flags, 1) && And(entry, 2) == 2 && And(entry, 4) == And(flags, 4)
  }

  /** The processor lets a program read the address, or write it: the entries of both levels are
      present and for the user, and for writing writable. */
  ghost predicate UserMay(w: seq<Word>, base: nat, d: int, v: Word, write: bool)
    requires IsDirectory(w, base, d)
  {
    Allows(WalkDirectory(w, d, v), write) && Allows(WalkTable(w, base, d, v), write)
  }

  ghost predicate Allows(entry: Word, write: bool) {
    And(entry, 1) == 1 && And(entry, 4) == 4 && (write ==> And(entry, 2) == 2)
  }

  /** In a space built for the user the pages' own entries decide. */
  lemma PagesDecide(w: seq<Word>, base: nat, d: int, flags: Word, v: Word, write: bool)
    requires IsDirectory(w, base, d) && DirectoryTagged(w, base, d, flags) && And(flags, 1) == 1 && And(flags, 4) == 4
    ensures UserMay(w, base, d, v, write) <==> Allows(Flat(w, base, d)[v / 4096], write)
  {
    hide And, WalkTable, IsDirectory, Flat;
    DirectoryInPool(w, base, d);
    assert TaggedEntry(w, base, d, v / 0x400000, flags);
  }

  /** Page-table writes leave the directory's entries as they are. */
  lemma DirectoryStaysTagged(w: seq<Word>, w': seq<Word>, base: nat, d: int, flags: Word)
    requires IsDirectory(w, base, d) && DirectoryTagged(w, base, d, flags) && OnlyTables(w, w', base, d)
    ensures IsDirectory(w', base, d) && DirectoryTagged(w', base, d, flags)
  {
    hide IsDirectory, OnlyTables, And, TableBlock, BlockEntry, InPool;
    TablesOnlyKeepsDirectory(w, w', base, d);
    forall i | 0 <= i < ENTRIES
      ensures InPool(w', d) && TaggedEntry(w', base, d, i, flags)
    {
      DirectoryInPool(w', base, d);
      DirectoryInPool(w, base, d);
      assert TaggedEntry(w, base, d, i, flags);
    }
  }

  lemma DirectoryInPool(w: seq<Word>, base: nat, d: int)
    requires IsDirectory(w, base, d)
    ensures InPool(w, d)
  {
  }

  lemma EntryTagged(w: seq<Word>, base: nat, d: int, tables: seq<nat>, flags: Word, i: nat)
    requires Building(w, base, d, tables, flags) && i < |tables| && flags < 256 && base % PAGE_SIZE == 0
    ensures InPool(w, d) && TaggedEntry(w, base, d, i, flags)
  {
    TableEntered(w, base, d, tables, flags, i);
    hide Building, Or, And, TableBlock, BlockEntry;
    var table: Word := base + tables[i] * PAGE_SIZE;
    SmallOr(flags);
    AndTagged(table, Or(flags, 2), 1);
    AndTagged(table, Or(flags, 2), 2);
    AndTagged(table, Or(flags, 2), 4);
    WritableBit(flags);
  }

  lemma TableEntered(w: seq<Word>, base: nat, d: int, tables: seq<nat>, flags: Word, i: nat)
    requires Building(w, base, d, tables, flags) && i < |tables|
    ensures InPool(w, d) && TableBlock(w, base, d, i) == tables[i]
    ensures BlockEntry(w, d, i) == base + tables[i] * PAGE_SIZE + Or(flags, 2)
    ensures base + tables[i] * PAGE_SIZE < WORD_LIMIT
  {
    assert EntryBuilt(w, base, d, i, tables[i], flags);
    hide Or, Mask;
    TableBuilt(w, base, d, tables, flags, i, 0);
  }

  lemma SmallOr(flags: Word)
    requires flags < 256
    ensures Or(flags, 2) < 4096
  {
    Shl12(1);
    OrBound(12, flags, 2);
  }

  lemma BuildingDone(w: seq<Word>, base: nat, d: int, tables: seq<nat>, flags: Word)
    requires Building(w, base, d, tables, flags) && |tables| == ENTRIES
    requires flags < 256 && base % PAGE_SIZE == 0
    ensures IsDirectory(w, base, d) && DirectoryTagged(w, base, d, flags)
    ensures forall i | 0 <= i < ENTRIES :: TableBlock(w, base, d, i) == tables[i]
    ensures IsIdentity(Flat(w, base, d), flags)
  {
    TablesDiffer(w, base, d, tables, flags);
    hide Building, EntryBuilt, IdentityTable, Mask, PageEntry, TaggedEntry;
    forall i | 0 <= i < ENTRIES
      ensures InPool(w, d) && TaggedEntry(w, base, d, i, flags)
    {
      EntryTagged(w, base, d, tables, flags, i);
    }
    forall i | 0 <= i < ENTRIES
      ensures TableBlock(w, base, d, i) == tables[i] && InPool(w, tables[i]) && tables[i] != d
      ensures Mask(BlockEntry(w, d, i)) == base + tables[i] * PAGE_SIZE
    {
      TableBuilt(w, base, d, tables, flags, i, 0);
    }
    assert IsDirectory(w, base, d);
    forall p | 0 <= p < PAGES
      ensures Flat(w, base, d)[p] == PageEntry(p, flags)
    {
      TableBuilt(w, base, d, tables, flags, p / ENTRIES, p % ENTRIES);
      assert p / ENTRIES * ENTRIES + p % ENTRIES == p;
      assert Slot(w, base, d, p) == tables[p / ENTRIES] * ENTRIES + p % ENTRIES;
    }
  }

  lemma TablesDiffer(w: seq<Word>, base: nat, d: int, tables: seq<nat>, flags: Word)
    requires Building(w, base, d, tables, flags)
    ensures InPool(w, d) && forall j, k | 0 <= j < k < |tables| :: tables[j] != tables[k]
  {
  }

  /** What the directory and the table say about region j and its k-th page */
  lemma TableBuilt(w: seq<Word>, base: nat, d: int, tables: seq<nat>, flags: Word, j: nat, k: nat)
    requires Building(w, base, d, tables, flags) && j < |tables| && k < ENTRIES
    ensures InPool(w, d) && InPool(w, tables[j]) && tables[j] != d
    ensures Mask(BlockEntry(w, d, j)) == base + tables[j] * PAGE_SIZE && TableBlock(w, base, d, j) == tables[j]
    ensures w[tables[j] * ENTRIES + k] == PageEntry(j * ENTRIES + k, flags)
  {
    hide Mask, PageEntry;
    assert EntryBuilt(w, base, d, j, tables[j], flags);
    assert BlockEntry(w, tables[j], k) == PageEntry(j * ENTRIES + k, flags);
  }

  /** Writes to block b do not reach the entries of another block. */
  lemma EntriesKept(w: seq<Word>, w': seq<Word>, b: int, other: int)
    requires SameOutside(w, w', b) && InPool(w, other) && other != b
    ensures forall k | 0 <= k < ENTRIES :: BlockEntry(w', other, k) == BlockEntry(w, other, k)
  {
    forall k | 0 <= k < ENTRIES
      ensures BlockEntry(w', other, k) == BlockEntry(w, other, k)
    {
      assert (other * ENTRIES + k) / ENTRIES == other;
    }
  }

  lemma BuildingKept(w: seq<Word>, w': seq<Word>, base: nat, d: int, tables: seq<nat>, flags: Word, b: int)
    requires Building(w, base, d, tables, flags) && SameOutside(w, w', b)
    requires b != d && b !in tables
    ensures Building(w', base, d, tables, flags)
  {
    EntriesKept(w, w', b, d);
    forall j | 0 <= j < |tables|
      ensures EntryBuilt(w', base, d, j, tables[j], flags)
    {
      assert EntryBuilt(w, base, d, j, tables[j], flags);
      EntriesKept(w, w', b, tables[j]);
    }
  }

  /** One more table: its block is filled, then its tagged address is stored. */
  lemma BuildingGrows(w: seq<Word>, w': seq<Word>, base: nat, d: int, tables: seq<nat>, flags: Word,
                      b: nat, entry: Word)
    requires Building(w, base, d, tables, flags) && |tables| < ENTRIES
    requires b != d && b !in tables && IdentityTable(w, b, |tables|, flags)
    requires Mask(entry) == base + b * PAGE_SIZE && entry == base + b * PAGE_SIZE + Or(flags, IS_WRITEABLE)
    requires w' == w[d * ENTRIES + |tables| := entry]
    ensures Building(w', base, d, tables + [b], flags)
  {
    var tables' := tables + [b];
    assert (d * ENTRIES + |tables|) / ENTRIES == d;
    assert SameOutside(w, w', d);
    forall j | 0 <= j < |tables'|
      ensures EntryBuilt(w', base, d, j, tables'[j], flags)
    {
      assert j < |tables| ==> EntryBuilt(w, base, d, j, tables[j], flags);
      EntriesKept(w, w', d, tables'[j]);
    }
  }

  /** The first b entries of the table in the block are filled. */
  ghost predicate PartTable(w: seq<Word>, block: int, i: nat, b: nat, flags: Word) {
    && InPool(w, block) && b <= ENTRIES
    && forall k | 0 <= k < b :: BlockEntry(w, block, k) == PageEntry(i * ENTRIES + k, flags)
  }

  lemma FillStep(w: seq<Word>, w': seq<Word>, block: int, i: nat, b: nat, flags: Word, val: Word)
    requires PartTable(w, block, i, b, flags) && b < ENTRIES
    requires val == PageEntry(i * ENTRIES + b, flags) && w' == w[block * ENTRIES + b := val]
    ensures PartTable(w', block, i, b + 1, flags)
    ensures SameOutside(w, w', block)
  {
    assert (block * ENTRIES + b) / ENTRIES == block;
    assert forall k | 0 <= k < b :: BlockEntry(w', block, k) == BlockEntry(w, block, k);
  }

  lemma WrappedEntry(offset: Word, i: nat, b: nat, flags: Word)
    requires offset == i * (ENTRIES * PAGE_SIZE) % WORD_LIMIT && b < ENTRIES
    ensures Tag((offset + b * PAGE_SIZE) % WORD_LIMIT, flags) == PageEntry(i * ENTRIES + b, flags)
  {
    hide Tag;
    var n, t := i * ENTRIES + b, i * (ENTRIES * PAGE_SIZE);
    var q := t / WORD_LIMIT;
    assert offset + b * PAGE_SIZE == n * PAGE_SIZE - q * WORD_LIMIT;
    Shifted(n * PAGE_SIZE, WORD_LIMIT, -q);
    Quotient(n * PAGE_SIZE, WORD_LIMIT, n / PAGES, n % PAGES * PAGE_SIZE);
  }

  /** The inner loop of paging_new_4gb */
  method FillTable(heap: Heap, entry: Word, offset: Word, ghost i: nat, flags: Word)
    requires heap.Layout() && IsBlock(heap, entry) && InPool(heap.pool[..], heap.Block(entry))
    requires offset == i * (ENTRIES * PAGE_SIZE) % WORD_LIMIT
    modifies heap.pool
    ensures SameOutside(old(heap.pool[..]), heap.pool[..], heap.Block(entry))
    ensures IdentityTable(heap.pool[..], heap.Block(entry), i, flags)
  {
    var first := (entry - heap.saddr) / 4;
    ghost var block := heap.Block(entry);
    assert first == block * ENTRIES;
    for b := 0 to ENTRIES
      invariant SameOutside(old(heap.pool[..]), heap.pool[..], block)
      invariant PartTable(heap.pool[..], block, i, b, flags)
    {
      ghost var w := heap.pool[..];
      WrappedEntry(offset, i, b, flags);
      heap.pool[first + b] := Tag((offset + b * PAGE_SIZE) % WORD_LIMIT, flags);
      FillStep(w, heap.pool[..], block, i, b, flags, heap.pool[first + b]);
    }
  }

  /** m' is m with a chain of one block for the directory and for each table so far. */
  ghost predicate AddsTables(m: Chains, m': Chains, d: nat, tables: seq<nat>) {
    && (forall b: nat :: b in m' <==> b in m || b == d || b in tables)
    && (forall b: nat | b in m :: b != d && b !in tables && m'[b] == m[b])
    && (forall b: nat | b == d || b in tables :: b in m' && m'[b] == 1)
  }

  /** The state of paging_new_4gb between two rounds of its loop. */
  ghost predicate HalfBuilt(heap: Heap, w0: seq<Word>, m0: Chains, free0: int, d: nat, tables: seq<nat>, flags: Word)
    reads heap, heap.entries, heap.pool
  {
    && heap.Valid()
    && Building(heap.pool[..], heap.saddr, d, tables, flags)
    && AddsTables(m0, heap.live, d, tables)
    && LiveWordsKept(w0, heap.pool[..], m0)
    && FreeCount(heap.entries[..]) == free0 - 1 - |tables|
  }

  lemma KeptThroughFresh(w0: seq<Word>, w: seq<Word>, w': seq<Word>, m0: Chains, b: int)
    requires LiveWordsKept(w0, w, m0) && SameOutside(w, w', b) && !Covered(m0, b)
    ensures LiveWordsKept(w0, w', m0)
  {
  }

  /** One round of the loop of paging_new_4gb: a table is allocated, filled and entered. */
  method AddTable(heap: Heap, directory: Word, i: nat, offset: Word, flags: Word,
                  ghost w0: seq<Word>, ghost m0: Chains, ghost free0: int, ghost tables: seq<nat>)
    returns (ghost block: nat)
    requires IsBlock(heap, directory) && i == |tables| < ENTRIES && flags < 256
    requires offset == i * (ENTRIES * PAGE_SIZE) % WORD_LIMIT
    requires HalfBuilt(heap, w0, m0, free0, heap.Block(directory), tables, flags)
    requires !Covered(m0, heap.Block(directory)) && free0 > 1 + i
    modifies heap.entries, heap`live, heap.pool
    ensures HalfBuilt(heap, w0, m0, free0, heap.Block(directory), tables + [block], flags)
  {
    hide Represents, ZeroBytes, IdentityTable, EntryBuilt, Mask, FreeCount, Or;
    ghost var w, m, d := heap.pool[..], heap.live, heap.Block(directory);
    var entry := AllocPage(heap, ENTRIES * 4);
    block := heap.Block(entry);
    KeptThroughFresh(w0, w, heap.pool[..], m0, block);
    ghost var w' := heap.pool[..];
    FillTable(heap, entry, offset, i, flags);
    ghost var w'' := heap.pool[..];
    KeptThroughFresh(w0, w', w'', m0, block);
    BuildingKept(w, w'', heap.saddr, d, tables, flags, block);
    MaskTagTwice(entry, flags, IS_WRITEABLE);
    TagTwice(entry, flags, IS_WRITEABLE);
    heap.pool[(directory - heap.saddr) / 4 + i] := Tag(Tag(entry, flags), IS_WRITEABLE);
    KeptThroughFresh(w0, w'', heap.pool[..], m0, d);
    BuildingGrows(w'', heap.pool[..], heap.saddr, d, tables, flags, block, Tag(Tag(entry, flags), IS_WRITEABLE));
  }

  /** paging_new_4gb. It does not look at the results of its 1026 allocations. */
  method New4Gb(heap: Heap, flags: Word) returns (chunk: Word)
    requires heap.Valid() && flags < 256 && FreeCount(heap.entries[..]) >= SPACE_BLOCKS
    modifies heap.entries, heap`live, heap.pool
    ensures heap.Valid() && SpaceAt(heap, chunk)
    ensures IsIdentity(SpaceMap(heap, chunk), flags)
    ensures DirectoryTagged(heap.pool[..], heap.saddr, DirectoryBlock(heap, chunk), flags)
    ensures AddsSpace(old(heap.live), heap.live, heap.pool[..], heap.saddr, heap.Block(chunk))
    ensures LiveWordsKept(old(heap.pool[..]), heap.pool[..], old(heap.live))
    ensures FreeCount(heap.entries[..]) == old(FreeCount(heap.entries[..])) - SPACE_BLOCKS
  {
    hide HalfBuilt, IsSpace, IsIdentity, AddsSpace, LiveWordsKept, FreeCount, Represents, Covered, DirectoryTagged;
    ghost var w0, m0, free0 := heap.pool[..], heap.live, FreeCount(heap.entries[..]);
    var directory := StartSpace(heap, flags);
    ghost var d, tables: seq<nat> := heap.Block(directory), [];
    var offset := 0;
    for i := 0 to ENTRIES
      invariant |tables| == i && offset == i * (ENTRIES * PAGE_SIZE) % WORD_LIMIT
      invariant HalfBuilt(heap, w0, m0, free0, d, tables, flags)
    {
      ghost var block := AddTable(heap, directory, i, offset, flags, w0, m0, free0, tables);
      tables := tables + [block];
      offset := (offset + ENTRIES * PAGE_SIZE) % WORD_LIMIT;
    }
    chunk := FinishSpace(heap, directory, w0, m0, free0, tables, flags);
  }

  /** The beginning of paging_new_4gb: the directory. */
  method StartSpace(heap: Heap, ghost flags: Word) returns (directory: Word)
    requires heap.Valid() && FreeCount(heap.entries[..]) > 0
    modifies heap.entries, heap`live, heap.pool
    ensures IsBlock(heap, directory) && !Covered(old(heap.live), heap.Block(directory))
    ensures HalfBuilt(heap, old(heap.pool[..]), old(heap.live), old(FreeCount(heap.entries[..])),
                      heap.Block(directory), [], flags)
  {
    ghost var w0, m0 := heap.pool[..], heap.live;
    directory := AllocPage(heap, ENTRIES * 4);
    KeptThroughFresh(w0, w0, heap.pool[..], m0, heap.Block(directory));
  }

  /** The end of paging_new_4gb: the chunk struct. */
  method FinishSpace(heap: Heap, directory: Word,
                     ghost w0: seq<Word>, ghost m0: Chains, ghost free0: int, ghost tables: seq<nat>, flags: Word)
    returns (chunk: Word)
    requires IsBlock(heap, directory) && |tables| == ENTRIES && free0 >= SPACE_BLOCKS && flags < 256
    requires HalfBuilt(heap, w0, m0, free0, heap.Block(directory), tables, flags)
    modifies heap.entries, heap`live, heap.pool
    ensures heap.Valid() && SpaceAt(heap, chunk)
    ensures IsIdentity(SpaceMap(heap, chunk), flags)
    ensures DirectoryTagged(heap.pool[..], heap.saddr, DirectoryBlock(heap, chunk), flags)
    ensures AddsSpace(m0, heap.live, heap.pool[..], heap.saddr, heap.Block(chunk))
    ensures LiveWordsKept(w0, heap.pool[..], m0)
    ensures FreeCount(heap.entries[..]) == free0 - SPACE_BLOCKS
  {
    ghost var w, m, d := heap.pool[..], heap.live, heap.Block(directory);
    chunk := AllocPage(heap, 4);
    ghost var c, w' := heap.Block(chunk), heap.pool[..];
    heap.pool[(chunk - heap.saddr) / 4] := directory;
    ghost var w'' := heap.pool[..];
    assert w'' == w'[c * ENTRIES := directory];
    assert c * ENTRIES / ENTRIES == c;
    assert SameOutside(w, w'', c);
    KeptThroughFresh(w0, w, w'', m0, c);
    BuildingKept(w, w'', heap.saddr, d, tables, flags, c);
    SpaceFromTables(w'', heap.saddr, c, d, tables, flags, m0, m, heap.live);
  }

  lemma SpaceFromTables(w: seq<Word>, base: nat, c: nat, d: nat, tables: seq<nat>, flags: Word,
                        m0: Chains, m: Chains, m': Chains)
    requires Building(w, base, d, tables, flags) && |tables| == ENTRIES
    requires InPool(w, c) && w[c * ENTRIES] == base + d * PAGE_SIZE
    requires AddsTables(m0, m, d, tables) && c !in m && m' == m[c := 1]
    requires flags < 256 && base % PAGE_SIZE == 0
    ensures IsSpace(w, base, c) && IsIdentity(Map(w, base, c), flags)
    ensures DirectoryTagged(w, base, DirectoryOf(w, base, c), flags)
    ensures AddsSpace(m0, m', w, base, c)
  {
    BuildingDone(w, base, d, tables, flags);
    assert DirectoryOf(w, base, c) == d;
    assert forall b: nat :: IsTable(w, base, d, b) <==> b in tables;
  }

  // -------------------------------------------------------------- freeing

  /** m' is m without the blocks of the first i tables. */
  ghost predicate WithoutTables(m: Chains, m': Chains, w: seq<Word>, base: nat, d: int, i: nat)
    requires IsDirectory(w, base, d) && i <= ENTRIES
  {
    && (forall b: nat :: b in m' <==> b in m && !exists j :: 0 <= j < i && TableBlock(w, base, d, j) == b)
    && (forall b: nat | b in m' :: m'[b] == m[b])
  }

  /** One round of the loop of paging_free_4gb, for the table in block b */
  method FreeTable(heap: Heap, directory: Word, i: nat, ghost d: nat, ghost b: nat)
    requires heap.Valid() && i < ENTRIES && InPool(heap.pool[..], d) && directory == heap.saddr + d * PAGE_SIZE
    requires Mask(BlockEntry(heap.pool[..], d, i)) == heap.Address(b) && b in heap.live
    modifies heap.entries, heap`live
    ensures heap.Valid() && heap.live == old(heap.live) - {b}
  {
    hide Represents, Mask;
    var entry := heap.pool[(directory - heap.saddr) / 4 + i];
    KFree(heap, Mask(entry));
  }

  /** The loop of paging_free_4gb */
  method FreeTables(heap: Heap, directory: Word, ghost w: seq<Word>, ghost m: Chains, ghost c: int, ghost d: nat)
    requires heap.Valid() && heap.live == m && heap.pool[..] == w && directory == heap.saddr + d * PAGE_SIZE
    requires IsSpace(w, heap.saddr, c) && SpaceLive(w, heap.saddr, c, m) && d == DirectoryOf(w, heap.saddr, c)
    requires IsDirectory(w, heap.saddr, d) && InPool(w, d)
    modifies heap.entries, heap`live
    ensures heap.Valid() && WithoutTables(m, heap.live, w, heap.saddr, d, ENTRIES)
  {
    hide SpaceLive, Represents, WithoutTables, IsSpace, IsDirectory, TableBlock, DirectoryOf, Mask;
    NoTableFreed(m, w, heap.saddr, d);
    for i := 0 to ENTRIES
      invariant heap.Valid() && WithoutTables(m, heap.live, w, heap.saddr, d, i)
    {
      OneTableFreed(m, heap.live, w, heap.saddr, c, i);
      FreeTable(heap, directory, i, d, TableBlock(w, heap.saddr, d, i));
    }
  }

  /** paging_free_4gb */
  method Free4Gb(heap: Heap, chunk: Word)
    requires heap.Valid() && SpaceAt(heap, chunk)
    requires SpaceLive(heap.pool[..], heap.saddr, heap.Block(chunk), heap.live)
    modifies heap.entries, heap`live
    ensures heap.Valid()
    ensures AddsSpace(heap.live, old(heap.live), heap.pool[..], heap.saddr, heap.Block(chunk))
  {
    ghost var w, m, c, d := heap.pool[..], heap.live, heap.Block(chunk), DirectoryBlock(heap, chunk);
    SpacePlaces(w, heap.saddr, c);
    hide SpaceLive, Represents, WithoutTables, AddsSpace, IsSpace, IsDirectory, DirectoryOf;
    var directory := heap.pool[(chunk - heap.saddr) / 4];
    FreeTables(heap, directory, w, m, c, d);
    AllTablesFreed(m, heap.live, w, heap.saddr, c);
    KFree(heap, directory);
    KFree(heap, chunk);
  }

  /** The words that say where the directory is, and where its entries are */
  lemma SpacePlaces(w: seq<Word>, base: nat, c: int)
    requires IsSpace(w, base, c)
    ensures var d := DirectoryOf(w, base, c);
            && InPool(w, c) && InPool(w, d) && w[c * ENTRIES] == base + d * PAGE_SIZE
            && IsDirectory(w, base, d)
  {
  }

  lemma AllTablesFreed(m: Chains, m': Chains, w: seq<Word>, base: nat, c: nat)
    requires IsSpace(w, base, c) && SpaceLive(w, base, c, m)
    requires WithoutTables(m, m', w, base, DirectoryOf(w, base, c), ENTRIES)
    ensures var d := DirectoryOf(w, base, c);
            c in m' && d in m' && AddsSpace(m' - {d} - {c}, m, w, base, c)
  {
    var d := DirectoryOf(w, base, c);
    assert !IsTable(w, base, d, d);
    assert forall b: nat :: b in m' <==> b in m && !IsTable(w, base, d, b);
    assert InSpace(w, base, c, c) && InSpace(w, base, c, d);
  }

  lemma NoTableFreed(m: Chains, w: seq<Word>, base: nat, d: int)
    requires IsDirectory(w, base, d)
    ensures WithoutTables(m, m, w, base, d, 0)
  {
  }

  /** The next table is still live, because the tables are distinct; freeing it is one step. */
  lemma OneTableFreed(m: Chains, m': Chains, w: seq<Word>, base: nat, c: int, i: nat)
    requires IsSpace(w, base, c) && SpaceLive(w, base, c, m) && i < ENTRIES
    requires WithoutTables(m, m', w, base, DirectoryOf(w, base, c), i)
    ensures var d := DirectoryOf(w, base, c); var b := TableBlock(w, base, d, i);
            && b >= 0 && b in m' && WithoutTables(m, m' - {b}, w, base, d, i + 1)
            && Mask(BlockEntry(w, d, i)) == base + b * PAGE_SIZE
  {
    assert InSpace(w, base, c, TableBlock(w, base, DirectoryOf(w, base, c), i));
  }

  // ------------------------------------------------------------ lifecycle

  datatype PageOp =
    | SetOp(virt: Word, val: Word)
    | MapOp(virt: Word, phys: Word, flags: Word)
    | MapToOp(virt: Word, phys: Word, physEnd: Word, flags: Word)

  /** One page-table operation on a live space. */
  method Apply(heap: Heap, chunk: Word, op: PageOp)
    requires heap.Layout() && SpaceAt(heap, chunk)
    modifies heap.pool
    ensures SpaceAt(heap, chunk)
    ensures forall b :: InSpace(heap.pool[..], heap.saddr, heap.Block(chunk), b)
                        <==> old(InSpace(heap.pool[..], heap.saddr, heap.Block(chunk), b))
  {
    ghost var w, c, d := heap.pool[..], heap.Block(chunk), DirectoryBlock(heap, chunk);
    match op {
      case SetOp(virt, val) =>
        var directory := heap.pool[(chunk - heap.saddr) / 4];
        assert directory == heap.saddr + d * PAGE_SIZE && heap.Block(directory) == d;
        var res := Set(heap, directory, virt, val);
      case MapOp(virt, phys, flags) =>
        var res := MapPage(heap, chunk, virt, phys, flags);
      case MapToOp(virt, phys, physEnd, flags) =>
        var res := MapTo(heap, chunk, virt, phys, physEnd, flags);
    }
    TablesOnlyKeepsSpace(w, heap.pool[..], heap.saddr, c);
  }

  /** Creating a space, running any page-table operations on it and freeing it
      gives back every byte of the heap's block table. */
  method Lifecycle(heap: Heap, flags: Word, ops: seq<PageOp>)
    requires heap.Valid() && flags < 256 && FreeCount(heap.entries[..]) >= SPACE_BLOCKS
    modifies heap.entries, heap`live, heap.pool
    ensures heap.Valid() && heap.live == old(heap.live)
    ensures heap.entries[..] == old(heap.entries[..])
  {
    ghost var t0, m0 := heap.entries[..], heap.live;
    var chunk := New4Gb(heap, flags);
    ghost var w, m, c := heap.pool[..], heap.live, heap.Block(chunk);
    for i := 0 to |ops|
      invariant heap.Valid() && SpaceAt(heap, chunk) && heap.live == m
      invariant forall b :: InSpace(heap.pool[..], heap.saddr, c, b) <==> InSpace(w, heap.saddr, c, b)
    {
      Apply(heap, chunk, ops[i]);
    }
    Free4Gb(heap, chunk);
    SpaceSubtracts(m0, m, heap.live, w, heap.pool[..], heap.saddr, c);
    TableUnique(t0, heap.entries[..], m0);
  }
}

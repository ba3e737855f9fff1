/** src/memory/paging/paging.c: page tables in blocks of the kernel heap. */
module Paging {
  import opened Arithmetic
  import opened Words
  import opened Heaps
  import opened PageTables

  const IS_PRESENT: Word := 1
  const IS_WRITEABLE: Word := 2
  const ACCESS_FROM_ALL: Word := 4
  const USER_FLAGS: Word := IS_PRESENT + IS_WRITEABLE + ACCESS_FROM_ALL

  lemma UserBits()
    ensures And(USER_FLAGS, 1) == 1 && And(USER_FLAGS, 2) == 2 && And(USER_FLAGS, 4) == 4
  {
    assert And(1, 1) == 1 && And(3, 2) == 2 && And(3, 1) == 1 && And(1, 0) == 0;
  }

  /** The address is that of a block of the heap. */
  predicate IsBlock(heap: Heap, address: Word) {
    heap.saddr <= address && address == heap.Address(heap.Block(address))
  }

  ghost predicate DirectoryAt(heap: Heap, directory: Word)
    reads heap.pool
  {
    IsBlock(heap, directory) && IsDirectory(heap.pool[..], heap.saddr, heap.Block(directory))
  }

  ghost function PageMap(heap: Heap, directory: Word): (f: seq<Word>)
    requires DirectoryAt(heap, directory)
    reads heap.pool
    ensures |f| == PAGES
  {
    Flat(heap.pool[..], heap.saddr, heap.Block(directory))
  }

  ghost predicate SpaceAt(heap: Heap, chunk: Word)
    reads heap.pool
  {
    IsBlock(heap, chunk) && IsSpace(heap.pool[..], heap.saddr, heap.Block(chunk))
  }

  ghost function SpaceMap(heap: Heap, chunk: Word): (f: seq<Word>)
    requires SpaceAt(heap, chunk)
    reads heap.pool
    ensures |f| == PAGES
  {
    Map(heap.pool[..], heap.saddr, heap.Block(chunk))
  }

  /** The block of a space's directory */
  ghost function DirectoryBlock(heap: Heap, chunk: Word): (d: int)
    requires SpaceAt(heap, chunk)
    reads heap.pool
    ensures IsDirectory(heap.pool[..], heap.saddr, d)
  {
    DirectoryOf(heap.pool[..], heap.saddr, heap.Block(chunk))
  }

  /** paging_align_address: up to a page boundary, in 32-bit arithmetic */
  function AlignAddress(ptr: Word): (r: Word)
    ensures r % PAGE_SIZE == 0
    ensures if ptr <= 0xfffff000 then ptr <= r < ptr + PAGE_SIZE else r == 0
  {
    if ptr % PAGE_SIZE != 0 then (ptr + PAGE_SIZE - ptr % PAGE_SIZE) % WORD_LIMIT else ptr
  }

  /** paging_align_to_lower_page */
  function AlignToLowerPage(addr: Word): (r: Word)
    ensures r % PAGE_SIZE == 0 && r <= addr < r + PAGE_SIZE
  {
    addr - addr % PAGE_SIZE
  }

  /** paging_get_indexes: result code, directory index, table index; the indexes
      keep their initial zero when the address is not page aligned. */
  function GetIndexes(virt: Word): (r: (int, int, int))
    ensures 0 <= r.1 < ENTRIES && 0 <= r.2 < ENTRIES
    ensures virt % PAGE_SIZE == 0 ==> r.0 == 0 && (r.1 * ENTRIES + r.2) * PAGE_SIZE == virt
  {
    if virt % PAGE_SIZE != 0 then (-EINVARG, 0, 0)
    else (0, virt / (ENTRIES * PAGE_SIZE), virt % (ENTRIES * PAGE_SIZE) / PAGE_SIZE)
  }

  /** paging_set */
  method Set(heap: Heap, directory: Word, virt: Word, val: Word) returns (res: int)
    requires heap.Layout() && DirectoryAt(heap, directory)
    modifies heap.pool
    ensures DirectoryAt(heap, directory)
    ensures res == if virt % PAGE_SIZE == 0 then 0 else -EINVARG
    ensures PageMap(heap, directory) ==
            if res == 0 then old(PageMap(heap, directory))[virt / PAGE_SIZE := val]
            else old(PageMap(heap, directory))
    ensures OnlyTables(old(heap.pool[..]), heap.pool[..], heap.saddr, heap.Block(directory))
    ensures res == 0 ==>
              heap.pool[..] == old(heap.pool[..][Slot(heap.pool[..], heap.saddr, heap.Block(directory),
                                                      virt / PAGE_SIZE) := val])
  {
    if virt % PAGE_SIZE != 0 {
      return -EINVARG;
    }
    var indexes := GetIndexes(virt);
    if indexes.0 < 0 {
      return indexes.0;
    }
    ghost var w, d, p := heap.pool[..], heap.Block(directory), virt / PAGE_SIZE;
    var entry := heap.pool[(directory - heap.saddr) / 4 + indexes.1];
    assert entry == BlockEntry(w, d, p / ENTRIES);
    var table := Mask(entry);
    assert (table - heap.saddr) / 4 + indexes.2 == Slot(w, heap.saddr, d, p);
    heap.pool[(table - heap.saddr) / 4 + indexes.2] := val;
    assert heap.pool[..] == w[Slot(w, heap.saddr, d, p) := val];
    SetOnePage(w, heap.saddr, d, p, val);
    return 0;
  }

  /** paging_get; an unaligned address reads the entry of page 0. */
  method Get(heap: Heap, directory: Word, virt: Word) returns (entry: Word)
    requires heap.Layout() && DirectoryAt(heap, directory)
    ensures entry == PageMap(heap, directory)[if virt % PAGE_SIZE == 0 then virt / PAGE_SIZE else 0]
  {
    var indexes := GetIndexes(virt);
    ghost var w, d := heap.pool[..], heap.Block(directory);
    ghost var p := if virt % PAGE_SIZE == 0 then virt / PAGE_SIZE else 0;
    var tableEntry := heap.pool[(directory - heap.saddr) / 4 + indexes.1];
    assert tableEntry == BlockEntry(w, d, p / ENTRIES);
    var table := Mask(tableEntry);
    assert (table - heap.saddr) / 4 + indexes.2 == Slot(w, heap.saddr, d, p);
    entry := heap.pool[(table - heap.saddr) / 4 + indexes.2];
  }

  /** paging_get_physical_address */
  method GetPhysicalAddress(heap: Heap, directory: Word, virt: Word) returns (phys: Word)
    requires heap.Layout() && DirectoryAt(heap, directory)
    ensures phys == Translate(PageMap(heap, directory), virt)
  {
    var lower := AlignToLowerPage(virt);
    var entry := Get(heap, directory, lower);
    phys := Mask(entry) + (virt - lower);
  }

  /** paging_map */
  method MapPage(heap: Heap, chunk: Word, virt: Word, phys: Word, flags: Word) returns (res: int)
    requires heap.Layout() && SpaceAt(heap, chunk)
    modifies heap.pool
    ensures res == if virt % PAGE_SIZE == 0 && phys % PAGE_SIZE == 0 then 0 else -EINVARG
    ensures Remapped(old(heap.pool[..]), heap.pool[..], heap.saddr, heap.Block(chunk),
                     if res == 0 then old(SpaceMap(heap, chunk))[virt / PAGE_SIZE := Tag(phys, flags)]
                     else old(SpaceMap(heap, chunk)))
    ensures res == 0 ==>
              heap.pool[..] == old(heap.pool[..][Slot(heap.pool[..], heap.saddr, DirectoryBlock(heap, chunk),
                                                      virt / PAGE_SIZE) := Tag(phys, flags)])
  {
    if virt % PAGE_SIZE != 0 || phys % PAGE_SIZE != 0 {
      return -EINVARG;
    }
    ghost var w, d := heap.pool[..], DirectoryBlock(heap, chunk);
    var directory := heap.pool[(chunk - heap.saddr) / 4];
    assert directory == heap.saddr + d * PAGE_SIZE && heap.Block(directory) == d;
    res := Set(heap, directory, virt, Tag(phys, flags));
    TablesOnlyKeepsSpace(w, heap.pool[..], heap.saddr, heap.Block(chunk));
  }

  function NextPage(a: Word): Word {
    (a + PAGE_SIZE) % WORD_LIMIT
  }

  lemma NextAddress(start: Word, i: nat)
    ensures Stepped(start, 0) == start
    ensures Stepped(start, i) % PAGE_SIZE == start % PAGE_SIZE
    ensures NextPage(Stepped(start, i)) == Stepped(start, i + 1)
  {
    var t := start + i * PAGE_SIZE;
    var q, a := t / WORD_LIMIT, Stepped(start, i);
    assert a == t - q * WORD_LIMIT;
    Quotient(start, WORD_LIMIT, 0, start);
    Shifted(start, PAGE_SIZE, i - q * PAGES);
    Shifted(t + PAGE_SIZE, WORD_LIMIT, -q);
  }

  /** What paging_map_range does to the flat map; unaligned addresses map nothing. */
  function RangeMap(f: seq<Word>, virt: Word, phys: Word, n: int, flags: Word): (r: seq<Word>)
    requires |f| == PAGES
    ensures |r| == PAGES
  {
    if virt % PAGE_SIZE == 0 && phys % PAGE_SIZE == 0
    then MapPages(f, virt / PAGE_SIZE, phys / PAGE_SIZE, n, flags)
    else f
  }

  lemma RangeStep(w: seq<Word>, w': seq<Word>, w'': seq<Word>, base: nat, c: int,
                  virt: Word, phys: Word, i: nat, flags: Word, v: Word, p: Word)
    requires v == Stepped(virt, i) && p == Stepped(phys, i)
    requires IsSpace(w, base, c)
    requires Remapped(w, w', base, c, RangeMap(Map(w, base, c), virt, phys, i, flags))
    requires Remapped(w', w'', base, c,
                      if v % PAGE_SIZE == 0 && p % PAGE_SIZE == 0
                      then Map(w', base, c)[v / PAGE_SIZE := Tag(p, flags)] else Map(w', base, c))
    ensures Remapped(w, w'', base, c, RangeMap(Map(w, base, c), virt, phys, i + 1, flags))
    ensures v % PAGE_SIZE == virt % PAGE_SIZE && p % PAGE_SIZE == phys % PAGE_SIZE
  {
    NextAddress(virt, i);
    NextAddress(phys, i);
    if virt % PAGE_SIZE == 0 && phys % PAGE_SIZE == 0 {
      MapOneMore(Map(w, base, c), virt, phys, i, flags, v, p);
    }
    RemappedTwice(w, w', w'', base, c, Map(w', base, c), Map(w'', base, c));
  }

  /** One round of the loop of paging_map_range, i pages into the range that changes map f */
  method MapStep(heap: Heap, chunk: Word, v: Word, p: Word, flags: Word,
                 ghost w: seq<Word>, ghost virt: Word, ghost phys: Word, ghost i: nat)
    returns (res: int)
    requires heap.Layout() && IsBlock(heap, chunk) && IsSpace(w, heap.saddr, heap.Block(chunk))
    requires v == Stepped(virt, i) && p == Stepped(phys, i)
    requires Remapped(w, heap.pool[..], heap.saddr, heap.Block(chunk),
                      RangeMap(Map(w, heap.saddr, heap.Block(chunk)), virt, phys, i, flags))
    modifies heap.pool
    ensures res == if virt % PAGE_SIZE == 0 && phys % PAGE_SIZE == 0 then 0 else -EINVARG
    ensures Remapped(w, heap.pool[..], heap.saddr, heap.Block(chunk),
                     RangeMap(Map(w, heap.saddr, heap.Block(chunk)), virt, phys, i + 1, flags))
  {
    hide Stepped, Slot, Map, IsSpace, OnlyTables, RangeMap, Tag;
    ghost var w' := heap.pool[..];
    res := MapPage(heap, chunk, v, p, flags);
    RangeStep(w, w', heap.pool[..], heap.saddr, heap.Block(chunk), virt, phys, i, flags, v, p);
  }

  /** paging_map_range */
  method MapRange(heap: Heap, chunk: Word, virt: Word, phys: Word, count: int, flags: Word) returns (res: int)
    requires heap.Layout() && SpaceAt(heap, chunk)
    modifies heap.pool
    ensures res == if count <= 0 || (virt % PAGE_SIZE == 0 && phys % PAGE_SIZE == 0) then 0 else -EINVARG
    ensures Remapped(old(heap.pool[..]), heap.pool[..], heap.saddr, heap.Block(chunk),
                     RangeMap(old(SpaceMap(heap, chunk)), virt, phys, count, flags))
  {
    res := 0;
    var v, p, i := virt, phys, 0;
    ghost var w, c := heap.pool[..], heap.Block(chunk);
    ghost var f := Map(w, heap.saddr, c);
    NextAddress(virt, 0);
    NextAddress(phys, 0);
    hide Stepped, NextPage, Slot, Map, IsSpace, OnlyTables;
    while i < count && res == 0
      invariant 0 <= i && (i <= count || i == 0)
      invariant v == Stepped(virt, i) && p == Stepped(phys, i)
      invariant res == if i == 0 || (virt % PAGE_SIZE == 0 && phys % PAGE_SIZE == 0) then 0 else -EINVARG
      invariant Remapped(w, heap.pool[..], heap.saddr, c, RangeMap(f, virt, phys, i, flags))
      decreases count - i
    {
      res := MapStep(heap, chunk, v, p, flags, w, virt, phys, i);
      NextAddress(virt, i);
      NextAddress(phys, i);
      v, p := NextPage(v), NextPage(p);
      i := i + 1;
    }
  }

  /** paging_map_to */
  method MapTo(heap: Heap, chunk: Word, virt: Word, phys: Word, physEnd: Word, flags: Word) returns (res: int)
    requires heap.Layout() && SpaceAt(heap, chunk)
    modifies heap.pool
    ensures res == if virt % PAGE_SIZE == 0 && phys % PAGE_SIZE == 0 && physEnd % PAGE_SIZE == 0 && phys <= physEnd
                   then 0 else -EINVARG
    ensures Remapped(old(heap.pool[..]), heap.pool[..], heap.saddr, heap.Block(chunk),
                     if res == 0 then RangeMap(old(SpaceMap(heap, chunk)), virt, phys,
                                               (physEnd - phys) / PAGE_SIZE, flags)
                     else old(SpaceMap(heap, chunk)))
  {
    if virt % PAGE_SIZE != 0 {
      return -EINVARG;
    }
    if phys % PAGE_SIZE != 0 {
      return -EINVARG;
    }
    if physEnd % PAGE_SIZE != 0 {
      return -EINVARG;
    }
    if physEnd < phys {
      return -EINVARG;
    }
    var totalPages := (physEnd - phys) / PAGE_SIZE;
    res := MapRange(heap, chunk, virt, phys, totalPages, flags);
  }
}

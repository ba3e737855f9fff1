/** The memory of a process (src/task/process.c:46-138 and 290-306): an allocation
    table that has to agree with the heap and with the task's page directory. */
module Processes {
  import opened Arithmetic
  import opened Words
  import opened HeapTable
  import opened Heaps
  import opened KHeap
  import opened PageTables
  import opened Paging
  import opened AddressSpace
  import opened PoolBytes

  const MAX_PROGRAM_ALLOCATIONS := 1024

  datatype Allocation = Allocation(ptr: Word, size: Word)

  const NONE := Allocation(0, 0)

  /** The allocation is the head of a live chain of the right length, and each page
      of the chain is mapped to itself, present, writable and for the user. */
  ghost predicate Holds(a: Allocation, base: nat, live: Chains, f: seq<Word>)
    requires |f| == PAGES
  {
    && base <= a.ptr && 0 < a.size <= 0xfffff000
    && var b := (a.ptr - base) / PAGE_SIZE;
    && a.ptr == base + b * PAGE_SIZE && b in live && live[b] == Blocks(a.size)
    && Identity(f, base / PAGE_SIZE + b, live[b], USER_FLAGS)
  }

  /** n pages from page v on are mapped to themselves with these flags. */
  ghost predicate Identity(f: seq<Word>, v: nat, n: nat, flags: Word)
    requires |f| == PAGES
  {
    v + n <= PAGES && forall p | v <= p < v + n :: f[p] == PageEntry(p, flags)
  }

  ghost predicate HoldsAll(s: seq<Allocation>, base: nat, live: Chains, f: seq<Word>)
    requires |f| == PAGES
  {
    && (forall i | 0 <= i < |s| && s[i].ptr != 0 :: Holds(s[i], base, live, f))
    && (forall i, j | 0 <= i < j < |s| && s[i].ptr != 0 :: s[i].ptr != s[j].ptr)
  }

  ghost predicate InSlot(s: seq<Allocation>, ptr: int) {
    exists i :: 0 <= i < |s| && s[i].ptr == ptr
  }

  /** The index of the first slot with this pointer, or an error. */
  ghost predicate FirstSlot(s: seq<Allocation>, ptr: Word, res: int) {
    if InSlot(s, ptr) then
      0 <= res < |s| && s[res].ptr == ptr && forall j | 0 <= j < res :: s[j].ptr != ptr
    else
      res < 0
  }

  /** The first empty slot now holds a. */
  ghost predicate Recorded(s: seq<Allocation>, s': seq<Allocation>, a: Allocation) {
    exists i :: FirstSlot(s, 0, i) && 0 <= i < |s| && s' == s[i := a]
  }

  /** Slot i held ptr and is empty now; the other slots are as they were. */
  ghost predicate Released(s: seq<Allocation>, s': seq<Allocation>, ptr: Word, i: int) {
    0 <= i < |s| && s[i].ptr == ptr && s' == s[i := NONE]
  }

  /** The chains no slot refers to. */
  ghost function Foreign(s: seq<Allocation>, base: nat, live: Chains): Chains {
    map b | b in live && !InSlot(s, base + b * PAGE_SIZE) :: live[b]
  }

  /** Adding a chain to the heap and to an empty slot leaves the other chains as they were. */
  lemma ForeignAfterMalloc(s: seq<Allocation>, base: nat, live: Chains, i: nat, b: nat, a: Allocation, n: nat)
    requires base > 0 && i < |s| && s[i].ptr == 0 && b !in live && a.ptr == base + b * PAGE_SIZE
    ensures Foreign(s[i := a], base, live[b := n]) == Foreign(s, base, live)
  {
    var s' := s[i := a];
    forall ptr | ptr != 0
      ensures InSlot(s', ptr) <==> InSlot(s, ptr) || ptr == a.ptr
    {
      if InSlot(s, ptr) {
        var j :| 0 <= j < |s| && s[j].ptr == ptr;
        assert s'[j].ptr == ptr;
      }
      assert s'[i].ptr == a.ptr;
    }
  }

  lemma ForeignAfterFree(s: seq<Allocation>, base: nat, live: Chains, f: seq<Word>, i: nat, b: nat)
    requires |f| == PAGES && base > 0 && i < |s| && s[i].ptr == base + b * PAGE_SIZE
    requires HoldsAll(s, base, live, f)
    ensures Foreign(s[i := NONE], base, live - {b}) == Foreign(s, base, live)
  {
    var s' := s[i := NONE];
    assert InSlot(s, base + b * PAGE_SIZE);
    forall ptr | ptr != 0 && ptr != s[i].ptr
      ensures InSlot(s', ptr) <==> InSlot(s, ptr)
    {
      if InSlot(s, ptr) {
        var j :| 0 <= j < |s| && s[j].ptr == ptr;
        assert s'[j].ptr == ptr;
      }
    }
  }

  /** Mapping n pages of the pool to themselves, in terms of the first one's block. */
  lemma IdentityRange(f: seq<Word>, base: nat, b: nat, ptr: Word, n: nat, flags: Word)
    requires |f| == PAGES && base % PAGE_SIZE == 0 && ptr == base + b * PAGE_SIZE
    requires base / PAGE_SIZE + b + n <= PAGES
    ensures var v := base / PAGE_SIZE + b;
            forall p | 0 <= p < PAGES ::
              RangeMap(f, ptr, ptr, n, flags)[p] == if v <= p < v + n then PageEntry(p, flags) else f[p]
  {
    var v := base / PAGE_SIZE + b;
    assert ptr / PAGE_SIZE == v && ptr % PAGE_SIZE == 0;
    forall p | 0 <= p < PAGES
      ensures RangeMap(f, ptr, ptr, n, flags)[p] == if v <= p < v + n then PageEntry(p, flags) else f[p]
    {
      MapPagesAt(f, v, v, n, flags, p);
      PageOffset(p, v);
    }
  }

  /** The allocation has bytes on page p. */
  predicate OnPage(a: Allocation, p: nat) {
    a.ptr != 0 && a.ptr <= p * PAGE_SIZE < a.ptr + a.size
  }

  /** One of the first n slots has bytes on page p. */
  ghost predicate OnSomePage(s: seq<Allocation>, n: nat, p: nat) {
    exists i :: 0 <= i < n <= |s| && OnPage(s[i], p)
  }

  lemma PagesOfChain(a: Allocation, base: nat, live: Chains, f: seq<Word>, p: nat)
    requires |f| == PAGES && base > 0 && base % PAGE_SIZE == 0 && Holds(a, base, live, f)
    ensures var b := (a.ptr - base) / PAGE_SIZE;
            a.ptr == base + b * PAGE_SIZE && base / PAGE_SIZE + b + Blocks(a.size) <= PAGES
            && (OnPage(a, p) <==> base / PAGE_SIZE + b <= p < base / PAGE_SIZE + b + Blocks(a.size))
  {
    hide Identity, Blocks;
    assert base / PAGE_SIZE + (a.ptr - base) / PAGE_SIZE + Blocks(a.size) <= PAGES by {
      IdentityEnds(f, base / PAGE_SIZE + (a.ptr - base) / PAGE_SIZE, live[(a.ptr - base) / PAGE_SIZE], USER_FLAGS);
    }
  }

  lemma IdentityEnds(f: seq<Word>, v: nat, n: nat, flags: Word)
    requires |f| == PAGES && Identity(f, v, n, flags)
    ensures v + n <= PAGES && forall p | v <= p < v + n :: f[p] == PageEntry(p, flags)
  {
  }

  /** The process can use each page of each of its allocations: it is mapped to itself, present,
      writable and for the user. */
  lemma AllocationsUsable(s: seq<Allocation>, base: nat, live: Chains, w: seq<Word>, c: int, i: nat, p: nat)
    requires base > 0 && base % PAGE_SIZE == 0 && Agrees(s, live, w, base, c) && i < |s| && OnPage(s[i], p)
    ensures p < PAGES
    ensures var entry := Map(w, base, c)[p];
            Mask(entry) == p * PAGE_SIZE && And(entry, 1) == 1 && And(entry, 2) == 2 && And(entry, 4) == 4
  {
    var f := Map(w, base, c);
    assert Holds(s[i], base, live, f);
    PagesOfChain(s[i], base, live, f, p);
    hide And, Identity;
    var b := (s[i].ptr - base) / PAGE_SIZE;
    IdentityEnds(f, base / PAGE_SIZE + b, live[b], USER_FLAGS);
    EntryAddress(p, USER_FLAGS);
    EntryBits(p, USER_FLAGS, 1);
    EntryBits(p, USER_FLAGS, 2);
    EntryBits(p, USER_FLAGS, 4);
    UserBits();
  }

  /** f' is f with the pages of the first n allocations mapped to themselves without any flag. */
  ghost predicate Unmapped(s: seq<Allocation>, n: nat, f: seq<Word>, f': seq<Word>)
    requires |f| == PAGES
  {
    |f'| == PAGES && forall p | 0 <= p < PAGES :: f'[p] == if OnSomePage(s, n, p) then p * PAGE_SIZE else f[p]
  }

  lemma NothingUnmapped(s: seq<Allocation>, f: seq<Word>)
    requires |f| == PAGES
    ensures Unmapped(s, 0, f, f)
  {
  }

  /** An empty slot has no pages ... */
  lemma EmptySlotUnmapped(s: seq<Allocation>, n: nat, f: seq<Word>, f': seq<Word>)
    requires |f| == PAGES && n < |s| && s[n].ptr == 0 && Unmapped(s, n, f, f')
    ensures Unmapped(s, n + 1, f, f')
  {
    forall p | 0 <= p < PAGES
      ensures OnSomePage(s, n + 1, p) <==> OnSomePage(s, n, p)
    {
      OneSlotMore(s, n, p);
    }
  }

  /** ... and the chain in another one is what process_free unmaps. */
  lemma SlotUnmapped(s: seq<Allocation>, n: nat, f: seq<Word>, f': seq<Word>, f'': seq<Word>, base: nat, live: Chains)
    requires |f| == PAGES == |f'| && base > 0 && base % PAGE_SIZE == 0 && n < |s| && Unmapped(s, n, f, f')
    requires Holds(s[n], base, live, f')
    requires f'' == RangeMap(f', s[n].ptr, s[n].ptr, Blocks(s[n].size), 0)
    ensures Unmapped(s, n + 1, f, f'')
  {
    var b := (s[n].ptr - base) / PAGE_SIZE;
    PagesOfChain(s[n], base, live, f', 0);
    IdentityRange(f', base, b, s[n].ptr, Blocks(s[n].size), 0);
    hide Holds, Blocks, RangeMap, OnSomePage, OnPage, PageEntry;
    forall p | 0 <= p < PAGES
      ensures f''[p] == if OnSomePage(s, n + 1, p) then p * PAGE_SIZE else f[p]
    {
      OneSlotMore(s, n, p);
      PagesOfChain(s[n], base, live, f', p);
      NoFlags(p);
    }
  }

  lemma NoFlags(p: nat)
    requires p < PAGES
    ensures PageEntry(p, 0) == p * PAGE_SIZE
  {
    hide Tag;
    Quotient(p, PAGES, 0, p);
    Quotient(p * PAGE_SIZE, PAGE_SIZE, p, 0);
  }

  lemma OneSlotMore(s: seq<Allocation>, n: nat, p: nat)
    requires n < |s|
    ensures OnSomePage(s, n + 1, p) <==> OnSomePage(s, n, p) || OnPage(s[n], p)
  {
    hide OnPage;
  }

  lemma PageOffset(p: nat, v: nat)
    requires p < PAGES && v <= PAGES
    ensures (p - v) % PAGES == if v <= p then p - v else p - v + PAGES
  {
    if v <= p {
      Quotient(p - v, PAGES, 0, p - v);
    } else {
      Quotient(p - v, PAGES, -1, p - v + PAGES);
    }
  }

  /** paging_align_address(ptr + size) is the end of the chain malloc'ed for size. */
  lemma AlignedEnd(ptr: Word, size: Word)
    requires ptr % PAGE_SIZE == 0 && 0 < size <= 0xfffff000
    requires ptr + Blocks(size) * PAGE_SIZE < WORD_LIMIT
    ensures ptr + size < WORD_LIMIT && AlignAddress(ptr + size) == ptr + Blocks(size) * PAGE_SIZE
    ensures (AlignAddress(ptr + size) - ptr) / PAGE_SIZE == Blocks(size)
  {
    hide AlignAddress, Blocks;
    var n, first := Blocks(size), ptr / PAGE_SIZE;
    assert ptr == first * PAGE_SIZE && ptr + n * PAGE_SIZE <= 0xfffff000;
    var end := AlignAddress(ptr + size);
    assert end == end / PAGE_SIZE * PAGE_SIZE;
    assert end / PAGE_SIZE == first + n;
    Quotient(n * PAGE_SIZE, PAGE_SIZE, n, 0);
  }

  /** Mapping the pages of one chain leaves the allocation in another chain alone. */
  lemma HoldsThroughMapping(a: Allocation, base: nat, live: Chains, live': Chains, f: seq<Word>,
                            b: nat, ptr: Word, n: nat, flags: Word)
    requires |f| == PAGES && Holds(a, base, live, f) && base % PAGE_SIZE == 0
    requires ptr == base + b * PAGE_SIZE && base / PAGE_SIZE + b + n <= PAGES
    requires var b' := (a.ptr - base) / PAGE_SIZE;
             (b' + live[b'] <= b || b + n <= b') && b' in live' && live'[b'] == live[b']
    ensures Holds(a, base, live', RangeMap(f, ptr, ptr, n, flags))
  {
    IdentityRange(f, base, b, ptr, n, flags);
  }

  /** A malloc into slot i keeps the whole table in agreement. */
  lemma HoldsAfterMalloc(s: seq<Allocation>, base: nat, t: Table, live: Chains, f: seq<Word>,
                         i: nat, b: nat, ptr: Word, size: Word)
    requires |f| == PAGES && base % PAGE_SIZE == 0 && base > 0
    requires Represents(t, live) && HoldsAll(s, base, live, f)
    requires i < |s| && s[i].ptr == 0 && 0 < size <= 0xfffff000
    requires Fits(t, b, Blocks(size)) && base + |t| * PAGE_SIZE < WORD_LIMIT && b !in live
    requires ptr == base + b * PAGE_SIZE
    ensures HoldsAll(s[i := Allocation(ptr, size)], base, live[b := Blocks(size)],
                     RangeMap(f, ptr, ptr, Blocks(size), USER_FLAGS))
  {
    var n := Blocks(size);
    var s', live', f' := s[i := Allocation(ptr, size)], live[b := n], RangeMap(f, ptr, ptr, n, USER_FLAGS);
    assert base / PAGE_SIZE + b + n <= PAGES;
    IdentityRange(f, base, b, ptr, n, USER_FLAGS);
    forall j | 0 <= j < |s| && j != i && s[j].ptr != 0
      ensures Holds(s[j], base, live', f') && s[j].ptr != ptr
    {
      FitAvoidsChain(t, live, b, n, (s[j].ptr - base) / PAGE_SIZE);
      HoldsThroughMapping(s[j], base, live, live', f, b, ptr, n, USER_FLAGS);
    }
    assert (ptr - base) / PAGE_SIZE == b;
    assert Holds(s'[i], base, live', f');
  }

  /** A free of slot i keeps the whole table in agreement. */
  lemma HoldsAfterFree(s: seq<Allocation>, base: nat, t: Table, live: Chains, f: seq<Word>, i: nat, b: nat)
    requires |f| == PAGES && base % PAGE_SIZE == 0 && base > 0
    requires Represents(t, live) && HoldsAll(s, base, live, f)
    requires i < |s| && s[i].ptr != 0 && s[i].ptr == base + b * PAGE_SIZE
    ensures HoldsAll(s[i := NONE], base, live - {b},
                     RangeMap(f, s[i].ptr, s[i].ptr, Blocks(s[i].size), 0))
  {
    var ptr, n := s[i].ptr, Blocks(s[i].size);
    var s', live', f' := s[i := NONE], live - {b}, RangeMap(f, ptr, ptr, n, 0);
    assert (ptr - base) / PAGE_SIZE == b;
    assert Holds(s[i], base, live, f);
    forall j | 0 <= j < |s| && j != i && s[j].ptr != 0
      ensures Holds(s[j], base, live', f')
    {
      assert Holds(s[j], base, live, f);
      var b' := (s[j].ptr - base) / PAGE_SIZE;
      assert if i < j then s[i].ptr != s[j].ptr else s[j].ptr != s[i].ptr;
      if b < b' {
        ChainsDisjoint(t, live, b, b');
      } else {
        ChainsDisjoint(t, live, b', b);
      }
      HoldsThroughMapping(s[j], base, live, live', f, b, ptr, n, 0);
    }
  }

  /** Memory in use outside the process's own page tables keeps its words. */
  ghost predicate Undisturbed(w: seq<Word>, w': seq<Word>, live: Chains, base: nat, c: int)
    requires IsSpace(w, base, c)
  {
    && |w'| == |w|
    && forall k | 0 <= k < |w| && Covered(live, k / ENTRIES) && !InSpace(w, base, c, k / ENTRIES) :: w'[k] == w[k]
  }

  /** The address space has the same blocks. */
  ghost predicate SameSpace(w: seq<Word>, w': seq<Word>, base: nat, c: int)
    requires IsSpace(w, base, c)
  {
    IsSpace(w', base, c) && forall b :: InSpace(w', base, c, b) <==> InSpace(w, base, c, b)
  }

  lemma RemappedSpace(w: seq<Word>, w': seq<Word>, base: nat, c: int, f: seq<Word>)
    requires IsSpace(w, base, c) && Remapped(w, w', base, c, f)
    ensures SameSpace(w, w', base, c)
  {
    TablesOnlyKeepsSpace(w, w', base, c);
  }

  lemma RemappedSameSpace(w: seq<Word>, w': seq<Word>, w'': seq<Word>, base: nat, c: int, f: seq<Word>)
    requires IsSpace(w, base, c) && SameSpace(w, w', base, c) && Remapped(w', w'', base, c, f)
    ensures SameSpace(w, w'', base, c)
  {
    TablesOnlyKeepsSpace(w', w'', base, c);
  }

  /** Clearing a fresh chain reaches no word of a live block, so the space survives it. */
  lemma ClearingFreshChain(t: Table, live: Chains, w: seq<Word>, w': seq<Word>, base: nat, c: int, b: nat, size: Word)
    requires Represents(t, live) && |w| == |t| * ENTRIES
    requires 0 < size <= 0xfffff000 && Fits(t, b, Blocks(size)) && w' == ZeroBytes(w, b * ENTRIES, size)
    requires IsSpace(w, base, c) && SpaceLive(w, base, c, live)
    ensures LiveWordsKept(w, w', live)
    ensures IsSpace(w', base, c) && Map(w', base, c) == Map(w, base, c)
    ensures DirectoryOf(w', base, c) == DirectoryOf(w, base, c)
    ensures forall k :: InSpace(w', base, c, k) <==> InSpace(w, base, c, k)
  {
    var n := Blocks(size);
    forall k | 0 <= k < |w| && Covered(live, k / ENTRIES)
      ensures w'[k] == w[k]
    {
      FreeIsZero(t, live, k / ENTRIES);
      assert k < b * ENTRIES || (b + n) * ENTRIES <= k;
      assert size / 4 <= n * ENTRIES;
    }
    forall k | 0 <= k < |w| && InSpace(w, base, c, k / ENTRIES)
      ensures w'[k] == w[k]
    {
      assert k / ENTRIES in live;
      assert Covered(live, k / ENTRIES);
    }
    SpaceKept(w, w', base, c);
  }

  /** The first `size` bytes of the chain at block b are zero. */
  ghost predicate Cleared(w: seq<Word>, b: nat, size: Word) {
    && b * PAGE_SIZE + size <= |w| * 4
    && forall k | b * PAGE_SIZE <= k < b * PAGE_SIZE + size :: PoolByte(w, k) == 0
  }

  /** Mapping a fresh chain does not write to it: it holds no page table. */
  lemma ClearedStays(t: Table, live: Chains, w: seq<Word>, w': seq<Word>, base: nat, c: int, b: nat, size: Word)
    requires Represents(t, live) && |w| == |t| * ENTRIES
    requires 0 < size <= 0xfffff000 && Fits(t, b, Blocks(size)) && Cleared(w, b, size)
    requires IsSpace(w, base, c) && SpaceLive(w, base, c, live)
    requires OnlyTables(w, w', base, DirectoryOf(w, base, c))
    ensures Cleared(w', b, size)
  {
    hide GetByte, IsDirectory;
    forall k | b * PAGE_SIZE <= k < b * PAGE_SIZE + size
      ensures PoolByte(w', k) == 0
    {
      assert b <= k / 4 / ENTRIES < b + Blocks(size);
      FreshWordKept(t, live, w, w', base, c, b, size, k / 4);
      assert PoolByte(w, k) == 0;
    }
  }

  lemma FreshWordKept(t: Table, live: Chains, w: seq<Word>, w': seq<Word>, base: nat, c: int, b: nat,
                      size: Word, j: nat)
    requires Represents(t, live) && |w| == |t| * ENTRIES && j < |w|
    requires Fits(t, b, Blocks(size)) && b <= j / ENTRIES < b + Blocks(size)
    requires IsSpace(w, base, c) && SpaceLive(w, base, c, live)
    requires OnlyTables(w, w', base, DirectoryOf(w, base, c))
    ensures w'[j] == w[j]
  {
    var d, x := DirectoryOf(w, base, c), j / ENTRIES;
    if IsTable(w, base, d, x) {
      assert InSpace(w, base, c, x);
      assert Covered(live, x);
      FreeIsZero(t, live, x);
    }
  }

  lemma FreshChainCleared(t: Table, live: Chains, w: seq<Word>, w': seq<Word>, w'': seq<Word>,
                          base: nat, c: int, b: nat, size: Word)
    requires Represents(t, live) && |w| == |t| * ENTRIES
    requires 0 < size <= 0xfffff000 && Fits(t, b, Blocks(size)) && w' == ZeroBytes(w, b * ENTRIES, size)
    requires IsSpace(w, base, c) && SpaceLive(w, base, c, live)
    requires IsSpace(w', base, c) && OnlyTables(w', w'', base, DirectoryOf(w', base, c))
    ensures Cleared(w'', b, size)
  {
    hide IsDirectory, PoolByte;
    ClearingFreshChain(t, live, w, w', base, c, b, size);
    assert size <= Blocks(size) * PAGE_SIZE;
    forall k | b * PAGE_SIZE <= k < b * PAGE_SIZE + size
      ensures PoolByte(w', k) == 0
    {
      ByteCleared(w, b, size, k);
    }
    ClearedStays(t, live, w', w'', base, c, b, size);
  }

  /** Allocation slots, heap chains and page tables say the same thing. */
  ghost predicate Agrees(s: seq<Allocation>, live: Chains, w: seq<Word>, base: nat, c: int) {
    && IsSpace(w, base, c) && SpaceLive(w, base, c, live)
    && HoldsAll(s, base, live, Map(w, base, c))
    && forall b: nat | InSpace(w, base, c, b) :: !InSlot(s, base + b * PAGE_SIZE)
  }

  lemma AgreesAfterMalloc(s: seq<Allocation>, t: Table, live: Chains, w: seq<Word>, w': seq<Word>, w'': seq<Word>,
                          base: nat, c: int, i: nat, b: nat, ptr: Word, size: Word)
    requires Represents(t, live) && |w| == |t| * ENTRIES && base % PAGE_SIZE == 0 && base > 0
    requires base + |t| * PAGE_SIZE < WORD_LIMIT && Agrees(s, live, w, base, c)
    requires i < |s| && s[i].ptr == 0 && 0 < size <= 0xfffff000 && ptr == base + b * PAGE_SIZE
    requires Fits(t, b, Blocks(size)) && b !in live && w' == ZeroBytes(w, b * ENTRIES, size)
    requires IsSpace(w', base, c)
    requires Remapped(w', w'', base, c, RangeMap(Map(w, base, c), ptr, ptr, Blocks(size), USER_FLAGS))
    ensures Agrees(s[i := Allocation(ptr, size)], live[b := Blocks(size)], w'', base, c)
    ensures Undisturbed(w, w'', live, base, c)
  {
    ClearingFreshChain(t, live, w, w', base, c, b, size);
    TablesOnlyKeepsSpace(w', w'', base, c);
    HoldsAfterMalloc(s, base, t, live, Map(w, base, c), i, b, ptr, size);
    var s' := s[i := Allocation(ptr, size)];
    forall b': nat | InSpace(w'', base, c, b')
      ensures !InSlot(s', base + b' * PAGE_SIZE)
    {
      assert b' in live;
      assert !InSlot(s, base + b' * PAGE_SIZE);
    }
  }

  lemma AgreesAfterFree(s: seq<Allocation>, t: Table, live: Chains, w: seq<Word>, w': seq<Word>,
                        base: nat, c: int, i: nat, b: nat)
    requires Represents(t, live) && base % PAGE_SIZE == 0 && base > 0
    requires Agrees(s, live, w, base, c)
    requires i < |s| && s[i].ptr != 0 && s[i].ptr == base + b * PAGE_SIZE
    requires Remapped(w, w', base, c, RangeMap(Map(w, base, c), s[i].ptr, s[i].ptr, Blocks(s[i].size), 0))
    ensures Agrees(s[i := NONE], live - {b}, w', base, c)
    ensures Undisturbed(w, w', live, base, c)
  {
    TablesOnlyKeepsSpace(w, w', base, c);
    HoldsAfterFree(s, base, t, live, Map(w, base, c), i, b);
    assert InSlot(s, base + b * PAGE_SIZE);
    var s' := s[i := NONE];
    forall b': nat | InSpace(w', base, c, b')
      ensures !InSlot(s', base + b' * PAGE_SIZE) && b' != b
    {
      assert InSpace(w, base, c, b');
    }
  }

  lemma FitEnd(base: nat, blocks: nat, b: nat, ptr: Word, size: Word)
    requires base % PAGE_SIZE == 0 && base + blocks * PAGE_SIZE < WORD_LIMIT
    requires ptr == base + b * PAGE_SIZE && 0 < size <= 0xfffff000 && b + Blocks(size) <= blocks
    ensures ptr % PAGE_SIZE == 0 && ptr + size < WORD_LIMIT && ptr <= AlignAddress(ptr + size)
    ensures (AlignAddress(ptr + size) - ptr) / PAGE_SIZE == Blocks(size)
  {
    AlignedEnd(ptr, size);
  }

  lemma SlotHoldsChain(s: seq<Allocation>, t: Table, live: Chains, w: seq<Word>, base: nat, c: int, i: nat)
    requires Represents(t, live) && base % PAGE_SIZE == 0 && base + |t| * PAGE_SIZE < WORD_LIMIT
    requires Agrees(s, live, w, base, c) && i < |s| && s[i].ptr != 0
    ensures var ptr, size := s[i].ptr, s[i].size;
            && base <= ptr && ptr == base + (ptr - base) / PAGE_SIZE * PAGE_SIZE
            && (ptr - base) / PAGE_SIZE in live
            && ptr % PAGE_SIZE == 0 && ptr + size < WORD_LIMIT && ptr <= AlignAddress(ptr + size)
            && (AlignAddress(ptr + size) - ptr) / PAGE_SIZE == Blocks(size)
  {
    assert Holds(s[i], base, live, Map(w, base, c));
    var b := (s[i].ptr - base) / PAGE_SIZE;
    assert ChainAt(t, b, live[b]);
    FitEnd(base, |t|, b, s[i].ptr, s[i].size);
  }

  /** The space is still there when the new chain is mapped, and the range is the chain's. */
  lemma BeforeMapping(s: seq<Allocation>, t: Table, live: Chains, w: seq<Word>, w': seq<Word>,
                      base: nat, c: int, b: nat, ptr: Word, size: Word)
    requires Represents(t, live) && |w| == |t| * ENTRIES && base % PAGE_SIZE == 0
    requires base + |t| * PAGE_SIZE < WORD_LIMIT && Agrees(s, live, w, base, c)
    requires 0 < size <= 0xfffff000 && ptr == base + b * PAGE_SIZE
    requires Fits(t, b, Blocks(size)) && w' == ZeroBytes(w, b * ENTRIES, size)
    ensures IsSpace(w, base, c) && SameSpace(w, w', base, c)
    ensures IsSpace(w', base, c) && Map(w', base, c) == Map(w, base, c)
    ensures ptr % PAGE_SIZE == 0 && ptr + size < WORD_LIMIT && ptr <= AlignAddress(ptr + size)
    ensures (AlignAddress(ptr + size) - ptr) / PAGE_SIZE == Blocks(size)
  {
    hide HoldsAll, InSlot, Represents, Map, IsDirectory, SpaceLive, ZeroBytes;
    ClearingFreshChain(t, live, w, w', base, c, b, size);
    FitEnd(base, |t|, b, ptr, size);
  }

  lemma ChainMapped(s: seq<Allocation>, t: Table, live: Chains, w: seq<Word>, w': seq<Word>, w'': seq<Word>,
                    base: nat, c: int, i: nat, b: nat, ptr: Word, size: Word)
    requires Represents(t, live) && |w| == |t| * ENTRIES && base % PAGE_SIZE == 0 && base > 0
    requires base + |t| * PAGE_SIZE < WORD_LIMIT && Agrees(s, live, w, base, c) && IsSpace(w, base, c)
    requires i < |s| && s[i].ptr == 0 && 0 < size <= 0xfffff000 && ptr == base + b * PAGE_SIZE
    requires Fits(t, b, Blocks(size)) && b !in live && w' == ZeroBytes(w, b * ENTRIES, size)
    requires SameSpace(w, w', base, c) && IsSpace(w', base, c)
    requires Remapped(w', w'', base, c, RangeMap(Map(w, base, c), ptr, ptr, Blocks(size), USER_FLAGS))
    ensures Agrees(s[i := Allocation(ptr, size)], live[b := Blocks(size)], w'', base, c)
    ensures Undisturbed(w, w'', live, base, c) && SameSpace(w, w'', base, c) && Cleared(w'', b, size)
    ensures IsSpace(w'', base, c)
    ensures Map(w'', base, c) == RangeMap(Map(w, base, c), ptr, ptr, Blocks(size), USER_FLAGS)
  {
    AgreesAfterMalloc(s, t, live, w, w', w'', base, c, i, b, ptr, size);
    RemappedSameSpace(w, w', w'', base, c, RangeMap(Map(w, base, c), ptr, ptr, Blocks(size), USER_FLAGS));
    AgreesSpaceLive(s, live, w, base, c);
    hide Agrees, Undisturbed, SameSpace, Map, RangeMap, Represents, ZeroBytes, Cleared, Fits, Blocks, IsSpace;
    FreshChainCleared(t, live, w, w', w'', base, c, b, size);
  }

  lemma AgreesSpaceLive(s: seq<Allocation>, live: Chains, w: seq<Word>, base: nat, c: int)
    requires Agrees(s, live, w, base, c)
    ensures IsSpace(w, base, c) && SpaceLive(w, base, c, live)
  {
  }

  lemma ChainUnmapped(s: seq<Allocation>, t: Table, live: Chains, w: seq<Word>, w': seq<Word>,
                      base: nat, c: int, i: nat, b: nat)
    requires Represents(t, live) && base % PAGE_SIZE == 0 && base > 0 && IsSpace(w, base, c)
    requires Agrees(s, live, w, base, c)
    requires i < |s| && s[i].ptr != 0 && s[i].ptr == base + b * PAGE_SIZE
    requires Remapped(w, w', base, c, RangeMap(Map(w, base, c), s[i].ptr, s[i].ptr, Blocks(s[i].size), 0))
    ensures Agrees(s[i := NONE], live - {b}, w', base, c) && SameSpace(w, w', base, c)
    ensures Undisturbed(w, w', live, base, c)
  {
    hide Agrees, SameSpace, Map, RangeMap, Represents, Blocks, Undisturbed;
    AgreesAfterFree(s, t, live, w, w', base, c, i, b);
    RemappedSpace(w, w', base, c, RangeMap(Map(w, base, c), s[i].ptr, s[i].ptr, Blocks(s[i].size), 0));
  }

  class Process {
    const heap: Heap
    const allocations: array<Allocation>
    const chunk: Word // task->page_directory

    ghost predicate Valid()
      reads this, heap, heap.entries, heap.pool, allocations
    {
      && heap.Valid() && allocations.Length == MAX_PROGRAM_ALLOCATIONS && IsBlock(heap, chunk)
      && allocations as object != heap.entries && allocations as object != heap.pool
      && Agrees(allocations[..], heap.live, heap.pool[..], heap.saddr, heap.Block(chunk))
    }

    /** The heap's chains apart from the process's allocations. */
    ghost function Others(): Chains
      reads heap, allocations
    {
      Foreign(allocations[..], heap.saddr, heap.live)
    }

    constructor (kernelHeap: Heap, pageDirectory: Word, table: array<Allocation>)
      ensures heap == kernelHeap && chunk == pageDirectory && allocations == table
    {
      heap, chunk, allocations := kernelHeap, pageDirectory, table;
    }

    /** process_find_free_allocation_index */
    method FindFreeAllocationIndex() returns (res: int)
      requires allocations.Length == MAX_PROGRAM_ALLOCATIONS
      ensures FirstSlot(allocations[..], 0, res)
    {
      for i := 0 to MAX_PROGRAM_ALLOCATIONS
        invariant forall j | 0 <= j < i :: allocations[j].ptr != 0
      {
        if allocations[i].ptr == 0 {
          return i;
        }
      }
      return -ENOMEM;
    }

    /** paging_map_to of every page of a chain to itself */
    method MapWhole(ptr: Word, size: Word, flags: Word) returns (res: int)
      requires heap.Layout() && SpaceAt(heap, chunk) && ptr % PAGE_SIZE == 0
      requires ptr + size < WORD_LIMIT && ptr <= AlignAddress(ptr + size)
      requires (AlignAddress(ptr + size) - ptr) / PAGE_SIZE == Blocks(size)
      modifies heap.pool
      ensures res == 0
      ensures Remapped(old(heap.pool[..]), heap.pool[..], heap.saddr, heap.Block(chunk),
                       RangeMap(old(SpaceMap(heap, chunk)), ptr, ptr, Blocks(size), flags))
    {
      hide IsSpace, AlignAddress, RangeMap, Blocks, Map, Remapped;
      res := MapTo(heap, chunk, ptr, ptr, AlignAddress(ptr + size), flags);
    }

    /** The mapping step of process_malloc, for the free slot `index` of s.
        t, m and w are the heap's table, chains and words before the allocation. */
    method MapChain(ghost index: nat, ptr: Word, size: Word,
                    ghost s: seq<Allocation>, ghost t: Table, ghost m: Chains, ghost w: seq<Word>)
      requires heap.Layout() && IsBlock(heap, chunk)
      requires Represents(t, m) && |t| == heap.entries.Length && |w| == |t| * ENTRIES
      requires Agrees(s, m, w, heap.saddr, heap.Block(chunk)) && index < |s| && s[index].ptr == 0
      requires 0 < size <= 0xfffff000 && IsBlock(heap, ptr) && heap.Block(ptr) !in m
      requires Fits(t, heap.Block(ptr), Blocks(size))
      requires heap.pool[..] == ZeroBytes(w, heap.Block(ptr) * ENTRIES, size)
      modifies heap.pool
      ensures Agrees(s[index := Allocation(ptr, size)], m[heap.Block(ptr) := Blocks(size)],
                     heap.pool[..], heap.saddr, heap.Block(chunk))
      ensures Map(heap.pool[..], heap.saddr, heap.Block(chunk))
           == RangeMap(Map(w, heap.saddr, heap.Block(chunk)), ptr, ptr, Blocks(size), USER_FLAGS)
      ensures Undisturbed(w, heap.pool[..], m, heap.saddr, heap.Block(chunk))
      ensures SameSpace(w, heap.pool[..], heap.saddr, heap.Block(chunk))
      ensures Cleared(heap.pool[..], heap.Block(ptr), size)
    {
      hide IsSpace, Agrees, InSlot, Undisturbed, OnlyTables, Represents, ZeroBytes, Cleared, SameSpace, Blocks,
           AlignAddress, RangeMap, Fits, Map, Remapped;
      ghost var w', c, b := heap.pool[..], heap.Block(chunk), heap.Block(ptr);
      BeforeMapping(s, t, m, w, w', heap.saddr, c, b, ptr, size);
      var res := MapWhole(ptr, size, USER_FLAGS);
      ChainMapped(s, t, m, w, w', heap.pool[..], heap.saddr, c, index, b, ptr, size);
    }

    /** process_malloc. A size of 0 or above 0xfffff000 rounds to no block at all. */
    method Malloc(size: Word) returns (ptr: Word)
      requires Valid() && 0 < size <= 0xfffff000 && MallocSafe(heap.entries[..], Blocks(size))
      modifies heap.entries, heap`live, heap.pool, allocations
      ensures Valid() && Others() == old(Others())
      ensures ptr != 0 <==> old(SomeFit(heap.entries[..], Blocks(size)) && InSlot(allocations[..], 0))
      ensures ptr != 0 ==>
                && IsBlock(heap, ptr)
                && LowestFit(old(heap.entries[..]), heap.Block(ptr), Blocks(size))
                && heap.live == old(heap.live)[heap.Block(ptr) := Blocks(size)]
                && SpaceMap(heap, chunk) == RangeMap(old(SpaceMap(heap, chunk)), ptr, ptr, Blocks(size), USER_FLAGS)
                && Recorded(old(allocations[..]), allocations[..], Allocation(ptr, size))
                && Cleared(heap.pool[..], heap.Block(ptr), size)
      ensures ptr == 0 ==>
                && heap.entries[..] == old(heap.entries[..]) && heap.live == old(heap.live)
                && allocations[..] == old(allocations[..])
                && SpaceMap(heap, chunk) == old(SpaceMap(heap, chunk))
      ensures SameSpace(old(heap.pool[..]), heap.pool[..], heap.saddr, heap.Block(chunk))
      ensures Undisturbed(old(heap.pool[..]), heap.pool[..], old(heap.live), heap.saddr, heap.Block(chunk))
    {
      hide HoldsAll, Represents, ZeroBytes, IsDirectory, Foreign, Cleared;
      ghost var t, m, w, c, s := heap.entries[..], heap.live, heap.pool[..], heap.Block(chunk), allocations[..];
      ptr := KZAlloc(heap, size);
      if ptr == 0 {
        return;
      }
      ghost var b := heap.Block(ptr);
      ClearingFreshChain(t, m, w, heap.pool[..], heap.saddr, c, b, size);
      var index := FindFreeAllocationIndex();
      if index < 0 {
        KFree(heap, ptr);
        assert heap.live == m;
        TableUnique(t, heap.entries[..], m);
        return 0;
      }
      MapChain(index, ptr, size, s, t, m, w);
      ForeignAfterMalloc(s, heap.saddr, m, index, b, Allocation(ptr, size), Blocks(size));
      allocations[index] := Allocation(ptr, size);
      assert allocations[..] == s[index := Allocation(ptr, size)];
    }

    /** process_get_allocation_by_addr; a null result is -1. */
    method GetAllocationByAddr(addr: Word) returns (res: int)
      requires allocations.Length == MAX_PROGRAM_ALLOCATIONS
      ensures FirstSlot(allocations[..], addr, res)
    {
      for i := 0 to MAX_PROGRAM_ALLOCATIONS
        invariant forall j | 0 <= j < i :: allocations[j].ptr != addr
      {
        if allocations[i].ptr == addr {
          return i;
        }
      }
      return -1;
    }

    /** process_allocation_unjoin: every slot with this pointer is emptied, and there is one. */
    method AllocationUnjoin(ptr: Word, ghost index: nat)
      requires allocations.Length == MAX_PROGRAM_ALLOCATIONS && index < allocations.Length
      requires allocations[index].ptr == ptr != 0
      requires forall j | 0 <= j < allocations.Length && j != index :: allocations[j].ptr != ptr
      modifies allocations
      ensures allocations[..] == old(allocations[..])[index := NONE]
    {
      for i := 0 to MAX_PROGRAM_ALLOCATIONS
        invariant allocations[..] == if i <= index then old(allocations[..])
                                     else old(allocations[..])[index := NONE]
      {
        if allocations[i].ptr == ptr {
          allocations[i] := NONE;
        }
      }
    }

    /** The unmapping step of process_free, for slot `index`. */
    method UnmapChain(a: Allocation, ghost index: nat, ghost s: seq<Allocation>) returns (res: int)
      requires heap.Valid() && IsBlock(heap, chunk)
      requires Agrees(s, heap.live, heap.pool[..], heap.saddr, heap.Block(chunk))
      requires index < |s| && s[index] == a && a.ptr != 0
      modifies heap.pool
      ensures res == 0 && IsBlock(heap, a.ptr) && heap.Block(a.ptr) in heap.live
      ensures Agrees(s[index := NONE], heap.live - {heap.Block(a.ptr)},
                     heap.pool[..], heap.saddr, heap.Block(chunk))
      ensures Remapped(old(heap.pool[..]), heap.pool[..], heap.saddr, heap.Block(chunk),
                       RangeMap(old(SpaceMap(heap, chunk)), a.ptr, a.ptr, Blocks(a.size), 0))
      ensures SameSpace(old(heap.pool[..]), heap.pool[..], heap.saddr, heap.Block(chunk))
      ensures Undisturbed(old(heap.pool[..]), heap.pool[..], heap.live, heap.saddr, heap.Block(chunk))
    {
      hide IsSpace, Agrees, Represents, SameSpace, RangeMap, Blocks, AlignAddress, Map, Remapped, DirectoryOf,
           Undisturbed;
      ghost var w, c := heap.pool[..], heap.Block(chunk);
      AgreesSpaceLive(s, heap.live, w, heap.saddr, c);
      SlotHoldsChain(s, heap.entries[..], heap.live, w, heap.saddr, c, index);
      res := MapWhole(a.ptr, a.size, 0);
      ChainUnmapped(s, heap.entries[..], heap.live, w, heap.pool[..], heap.saddr, c, index, heap.Block(a.ptr));
    }

    /** process_free, for a non-null pointer as isr80h_command5_free demands */
    method Free(ptr: Word)
      requires Valid() && ptr != 0
      modifies heap.entries, heap`live, heap.pool, allocations
      ensures Valid() && Others() == old(Others())
      ensures old(InSlot(allocations[..], ptr)) ==>
                exists i :: Released(old(allocations[..]), allocations[..], ptr, i)
                            && IsBlock(heap, ptr) && heap.live == old(heap.live) - {heap.Block(ptr)}
                            && Remapped(old(heap.pool[..]), heap.pool[..], heap.saddr, heap.Block(chunk),
                                        RangeMap(old(SpaceMap(heap, chunk)), ptr, ptr,
                                                 Blocks(old(allocations[..])[i].size), 0))
      ensures !old(InSlot(allocations[..], ptr)) ==>
                && heap.entries[..] == old(heap.entries[..]) && heap.live == old(heap.live)
                && allocations[..] == old(allocations[..]) && heap.pool[..] == old(heap.pool[..])
      ensures SameSpace(old(heap.pool[..]), heap.pool[..], heap.saddr, heap.Block(chunk))
      ensures Undisturbed(old(heap.pool[..]), heap.pool[..], old(heap.live), heap.saddr, heap.Block(chunk))
    {
      ghost var s := allocations[..];
      var index := GetAllocationByAddr(ptr);
      if index < 0 {
        return;
      }
      var allocation := allocations[index];
      var res := UnmapChain(allocation, index, s);
      if res < 0 {
        assert false;
      }
      ForeignAfterFree(s, heap.saddr, heap.live, old(SpaceMap(heap, chunk)), index, heap.Block(ptr));
      AllocationUnjoin(ptr, index);
      KFree(heap, ptr);
      assert Released(s, allocations[..], ptr, index);
    }

    /** process_terminate_allocations */
    method TerminateAllocations()
      requires Valid()
      modifies heap.entries, heap`live, heap.pool, allocations
      ensures Valid() && Others() == old(Others())
      ensures heap.live == Others()
      ensures forall i | 0 <= i < allocations.Length :: allocations[i].ptr == 0
      ensures IsSpace(heap.pool[..], heap.saddr, heap.Block(chunk))
      ensures OnlyTables(old(heap.pool[..]), heap.pool[..], heap.saddr, old(DirectoryBlock(heap, chunk)))
      ensures Unmapped(old(allocations[..]), MAX_PROGRAM_ALLOCATIONS, old(SpaceMap(heap, chunk)),
                       Map(heap.pool[..], heap.saddr, heap.Block(chunk)))
    {
      hide SpaceLive, Represents, IsDirectory, OnlyTables, Unmapped, Map, RangeMap, Holds;
      ghost var w, c, d := heap.pool[..], heap.Block(chunk), DirectoryBlock(heap, chunk);
      ghost var f, s0 := Map(w, heap.saddr, c), allocations[..];
      TablesUntouched(w, heap.saddr, d);
      NothingUnmapped(s0, f);
      for i := 0 to MAX_PROGRAM_ALLOCATIONS
        invariant Valid() && Others() == old(Others())
        invariant forall j | 0 <= j < i :: allocations[j].ptr == 0
        invariant OnlyTables(w, heap.pool[..], heap.saddr, d) && DirectoryBlock(heap, chunk) == d
        invariant allocations[i..] == s0[i..]
        invariant Unmapped(s0, i, f, Map(heap.pool[..], heap.saddr, c))
      {
        assert allocations[i] == allocations[i..][0] == s0[i];
        if allocations[i].ptr != 0 {
          ghost var w', s, m := heap.pool[..], allocations[..], heap.live;
          var ptr := allocations[i].ptr;
          assert s[i].ptr == ptr;
          Free(ptr);
          OnlyTablesTrans(w, w', heap.pool[..], heap.saddr, d);
          ghost var k :| Released(s, allocations[..], ptr, k);
          assert k == i;
          SlotUnmapped(s0, i, f, Map(w', heap.saddr, c), Map(heap.pool[..], heap.saddr, c), heap.saddr, m);
        } else {
          EmptySlotUnmapped(s0, i, f, Map(heap.pool[..], heap.saddr, c));
        }
      }
      NoSlotsNoChains(allocations[..], heap.saddr, heap.live);
    }
  }

  lemma NoSlotsNoChains(s: seq<Allocation>, base: nat, live: Chains)
    requires base > 0 && forall i | 0 <= i < |s| :: s[i].ptr == 0
    ensures Foreign(s, base, live) == live
  {
  }

  // ------------------------------------------------------------- whole runs

  /** A call a program can make */
  datatype MemOp = MallocOp(size: Word) | FreeOp(ptr: Word)

  /** The call is one the kernel serves without marking past its table: a pointer that is not
      null, or a size that rounds to blocks and is not answered with a short trailing run. */
  method Served(heap: Heap, op: MemOp) returns (ok: bool)
    ensures ok <==> match op case FreeOp(ptr) => ptr != 0
                             case MallocOp(size) => 0 < size <= 0xfffff000 && MallocSafe(heap.entries[..], Blocks(size))
  {
    match op {
      case FreeOp(ptr) =>
        return ptr != 0;
      case MallocOp(size) =>
        if size == 0 || size > 0xfffff000 {
          return false;
        }
        var r := heap.GetStartBlock(Blocks(size));
        MarkingInsideIffSafe(heap.entries[..], Blocks(size), r);
        return r < 0 || r + Blocks(size) <= heap.entries.Length;
    }
  }

  /** Words of chains that are still there at the end are kept if both parts keep them. */
  lemma UndisturbedTwice(w: seq<Word>, w': seq<Word>, w'': seq<Word>, live: Chains, base: nat, c: int)
    requires IsSpace(w, base, c) && SameSpace(w, w', base, c)
    requires Undisturbed(w, w', live, base, c) && Undisturbed(w', w'', live, base, c)
    ensures Undisturbed(w, w'', live, base, c)
  {
    hide IsSpace, InSpace, Covered;
  }

  lemma UndisturbedForeign(w: seq<Word>, w': seq<Word>, s: seq<Allocation>, live: Chains, base: nat, c: int)
    requires IsSpace(w, base, c) && Undisturbed(w, w', live, base, c)
    ensures Undisturbed(w, w', Foreign(s, base, live), base, c)
  {
    hide IsSpace, InSpace;
    forall k | Covered(Foreign(s, base, live), k)
      ensures Covered(live, k)
    {
      var b :| b in Foreign(s, base, live) && b <= k < b + Foreign(s, base, live)[b];
      assert b in live && b <= k < b + live[b];
    }
  }

  /** Any run of mallocs and frees: the allocation table keeps agreeing with the heap and the
      page tables, the address space keeps its blocks, and chains of others stay where they are,
      with every word in them that is not the process's page table. */
  method Run(p: Process, ops: seq<MemOp>)
    requires p.Valid()
    modifies p.heap.entries, p.heap`live, p.heap.pool, p.allocations
    ensures p.Valid() && p.Others() == old(p.Others())
    ensures SameSpace(old(p.heap.pool[..]), p.heap.pool[..], p.heap.saddr, p.heap.Block(p.chunk))
    ensures Undisturbed(old(p.heap.pool[..]), p.heap.pool[..], old(p.Others()), p.heap.saddr, p.heap.Block(p.chunk))
  {
    hide IsSpace, InSpace, Process.Others, Undisturbed;
    ghost var w, c, m := p.heap.pool[..], p.heap.Block(p.chunk), p.Others();
    NothingDisturbed(w, m, p.heap.saddr, c);
    for i := 0 to |ops|
      invariant p.Valid() && p.Others() == m
      invariant SameSpace(w, p.heap.pool[..], p.heap.saddr, c)
      invariant Undisturbed(w, p.heap.pool[..], m, p.heap.saddr, c)
    {
      ghost var w' := p.heap.pool[..];
      var ok := Served(p.heap, ops[i]);
      if ok {
        Call(p, ops[i]);
        UndisturbedTwice(w, w', p.heap.pool[..], m, p.heap.saddr, c);
      }
    }
  }

  lemma NothingDisturbed(w: seq<Word>, live: Chains, base: nat, c: int)
    requires IsSpace(w, base, c)
    ensures Undisturbed(w, w, live, base, c)
  {
  }

  method Call(p: Process, op: MemOp)
    requires p.Valid()
    requires match op case FreeOp(ptr) => ptr != 0
                      case MallocOp(size) => 0 < size <= 0xfffff000 && MallocSafe(p.heap.entries[..], Blocks(size))
    modifies p.heap.entries, p.heap`live, p.heap.pool, p.allocations
    ensures p.Valid() && p.Others() == old(p.Others())
    ensures SameSpace(old(p.heap.pool[..]), p.heap.pool[..], p.heap.saddr, p.heap.Block(p.chunk))
    ensures Undisturbed(old(p.heap.pool[..]), p.heap.pool[..], old(p.Others()), p.heap.saddr, p.heap.Block(p.chunk))
  {
    hide IsDirectory, HoldsAll, Represents, Foreign, SpaceLive, RangeMap, Undisturbed;
    ghost var w, c, s, m := p.heap.pool[..], p.heap.Block(p.chunk), p.allocations[..], p.heap.live;
    match op {
      case MallocOp(size) =>
        var _ := p.Malloc(size);
      case FreeOp(ptr) =>
        p.Free(ptr);
    }
    UndisturbedForeign(w, p.heap.pool[..], s, m, p.heap.saddr, c);
  }

  ghost predicate NoSlots(s: seq<Allocation>) {
    forall i | 0 <= i < |s| :: s[i].ptr == 0
  }

  lemma SameSpaceTwice(w: seq<Word>, w': seq<Word>, w'': seq<Word>, base: nat, c: int)
    requires IsSpace(w, base, c) && SameSpace(w, w', base, c) && SameSpace(w', w'', base, c)
    ensures SameSpace(w, w'', base, c)
  {
    hide IsSpace, InSpace;
  }

  lemma TablesOnlySameSpace(w: seq<Word>, w': seq<Word>, base: nat, c: int)
    requires IsSpace(w, base, c) && OnlyTables(w, w', base, DirectoryOf(w, base, c))
    ensures SameSpace(w, w', base, c)
  {
    TablesOnlyKeepsSpace(w, w', base, c);
  }

  /** Equal chains apart from the process's own, of which there were none and are none */
  lemma TerminationRestoresTable(s: seq<Allocation>, t: Table, live: Chains,
                                 s': seq<Allocation>, t': Table, live': Chains, base: nat)
    requires base > 0 && |t| == |t'| && Represents(t, live) && Represents(t', live')
    requires NoSlots(s) && live' == Foreign(s', base, live') == Foreign(s, base, live)
    ensures live' == live && t' == t
  {
    NoSlotsNoChains(s, base, live);
    TableUnique(t, t', live);
  }

  /** A process without allocations: any run of mallocs and frees and then
      process_terminate_allocations give back every byte of the heap table. */
  method Session(p: Process, ops: seq<MemOp>)
    requires p.Valid() && NoSlots(p.allocations[..])
    modifies p.heap.entries, p.heap`live, p.heap.pool, p.allocations
    ensures p.Valid() && NoSlots(p.allocations[..])
    ensures p.heap.live == old(p.heap.live) && p.heap.entries[..] == old(p.heap.entries[..])
    ensures SameSpace(old(p.heap.pool[..]), p.heap.pool[..], p.heap.saddr, p.heap.Block(p.chunk))
  {
    hide Agrees, Represents, IsSpace, SameSpace, OnlyTables, Foreign;
    ghost var t, m, w, base, c := p.heap.entries[..], p.heap.live, p.heap.pool[..], p.heap.saddr, p.heap.Block(p.chunk);
    AgreesSpaceLive(p.allocations[..], m, w, base, c);
    Run(p, ops);
    ghost var w' := p.heap.pool[..];
    AgreesSpaceLive(p.allocations[..], p.heap.live, w', base, c);
    p.TerminateAllocations();
    TablesOnlySameSpace(w', p.heap.pool[..], base, c);
    SameSpaceTwice(w, w', p.heap.pool[..], base, c);
    TerminationRestoresTable(old(p.allocations[..]), t, m, p.allocations[..], p.heap.entries[..], p.heap.live, base);
  }

  /** A fresh address space and empty slots make a valid process. */
  lemma FreshProcess(s: seq<Allocation>, m0: Chains, m: Chains, w: seq<Word>, base: nat, c: int)
    requires base > 0 && NoSlots(s) && IsSpace(w, base, c) && AddsSpace(m0, m, w, base, c)
    ensures Agrees(s, m, w, base, c)
  {
  }

  /** From paging_new_4gb through any run of mallocs and frees to process_terminate_allocations
      and paging_free_4gb: every byte of the heap table is as before. */
  method Life(heap: Heap, flags: Word, table: array<Allocation>, ops: seq<MemOp>)
    requires heap.Valid() && flags < 256 && FreeCount(heap.entries[..]) >= SPACE_BLOCKS
    requires table.Length == MAX_PROGRAM_ALLOCATIONS && NoSlots(table[..])
    requires table as object != heap.entries && table as object != heap.pool
    modifies heap.entries, heap`live, heap.pool, table
    ensures heap.Valid() && heap.live == old(heap.live) && heap.entries[..] == old(heap.entries[..])
  {
    hide Agrees, Represents, IsSpace, InSpace, SameSpace, AddsSpace, SpaceLive, IsIdentity;
    ghost var t, m0, base := heap.entries[..], heap.live, heap.saddr;
    var chunk := New4Gb(heap, flags);
    ghost var m, w, c := heap.live, heap.pool[..], heap.Block(chunk);
    FreshProcess(table[..], m0, m, w, base, c);
    var p := new Process(heap, chunk, table);
    Session(p, ops);
    ghost var w' := heap.pool[..];
    AgreesSpaceLive(table[..], m, w', base, c);
    Free4Gb(heap, chunk);
    SameBlocksFreed(m0, m, heap.live, w, w', base, c);
    TableUnique(t, heap.entries[..], m0);
  }

  lemma SameBlocksFreed(m0: Chains, m: Chains, m': Chains, w: seq<Word>, w': seq<Word>, base: nat, c: int)
    requires IsSpace(w, base, c) && IsSpace(w', base, c) && SameSpace(w, w', base, c)
    requires AddsSpace(m0, m, w, base, c) && AddsSpace(m', m, w', base, c)
    ensures m' == m0
  {
    hide IsSpace, InSpace;
    SpaceSubtracts(m0, m, m', w, w', base, c);
  }
}

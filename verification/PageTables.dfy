/** Two-level page tables held in heap blocks, as a value: block b of the pool is
    words 1024*b to 1024*b+1023, at address base + 4096*b. */
module PageTables {
  import opened Words
  import opened HeapTable
  import opened Arithmetic

  const PAGE_SIZE := 4096
  const ENTRIES := 1024
  const PAGES := 0x100000

  /** Entry i of the table or directory in block d. */
  function BlockEntry(w: seq<Word>, d: int, i: int): Word
    requires 0 <= d && 0 <= i < ENTRIES && (d + 1) * ENTRIES <= |w|
  {
    w[d * ENTRIES + i]
  }

  /** The block whose address is in entry i of the directory in block d. */
  function TableBlock(w: seq<Word>, base: nat, d: int, i: int): int
    requires 0 <= d && 0 <= i < ENTRIES && (d + 1) * ENTRIES <= |w|
  {
    (Mask(BlockEntry(w, d, i)) - base) / PAGE_SIZE
  }

  ghost predicate InPool(w: seq<Word>, b: int) {
    0 <= b && (b + 1) * ENTRIES <= |w|
  }

  /** Block d is a page directory: its 1024 entries point at distinct table blocks,
      none of them d itself. */
  ghost predicate IsDirectory(w: seq<Word>, base: nat, d: int) {
    && InPool(w, d)
    && (forall i | 0 <= i < ENTRIES ::
          var b := TableBlock(w, base, d, i);
          InPool(w, b) && b != d && Mask(BlockEntry(w, d, i)) == base + b * PAGE_SIZE)
    && (forall i, j | 0 <= i < j < ENTRIES :: TableBlock(w, base, d, i) != TableBlock(w, base, d, j))
  }

  /** The word holding the entry of page p. */
  ghost function Slot(w: seq<Word>, base: nat, d: int, p: int): (k: int)
    requires IsDirectory(w, base, d) && 0 <= p < PAGES
    ensures 0 <= k < |w| && k / ENTRIES == TableBlock(w, base, d, p / ENTRIES) && k % ENTRIES == p % ENTRIES
  {
    TableBlock(w, base, d, p / ENTRIES) * ENTRIES + p % ENTRIES
  }

  /** The flat map from page numbers to entries. */
  ghost function Flat(w: seq<Word>, base: nat, d: int): (f: seq<Word>)
    requires IsDirectory(w, base, d)
    ensures |f| == PAGES && forall p | 0 <= p < PAGES :: f[p] == w[Slot(w, base, d, p)]
  {
    seq(PAGES, p requires 0 <= p < PAGES => w[Slot(w, base, d, p)])
  }

  lemma SlotsDistinct(w: seq<Word>, base: nat, d: int, p: int, q: int)
    requires IsDirectory(w, base, d) && 0 <= p < PAGES && 0 <= q < PAGES && p != q
    ensures Slot(w, base, d, p) != Slot(w, base, d, q)
  {
    var i, j := p / ENTRIES, q / ENTRIES;
    if i < j {
      assert TableBlock(w, base, d, i) != TableBlock(w, base, d, j);
    } else if j < i {
      assert TableBlock(w, base, d, j) != TableBlock(w, base, d, i);
    }
  }

  ghost predicate IsTable(w: seq<Word>, base: nat, d: int, b: int)
    requires IsDirectory(w, base, d)
  {
    exists i :: 0 <= i < ENTRIES && TableBlock(w, base, d, i) == b
  }

  /** w' differs from w at most inside the tables of directory d. */
  ghost predicate OnlyTables(w: seq<Word>, w': seq<Word>, base: nat, d: int)
    requires IsDirectory(w, base, d)
  {
    && |w'| == |w|
    && forall k | 0 <= k < |w| && !IsTable(w, base, d, k / ENTRIES) :: w'[k] == w[k]
  }

  lemma DirectoryKept(w: seq<Word>, w': seq<Word>, base: nat, d: int)
    requires IsDirectory(w, base, d) && |w'| == |w|
    requires forall i | 0 <= i < ENTRIES :: BlockEntry(w', d, i) == BlockEntry(w, d, i)
    ensures IsDirectory(w', base, d)
    ensures forall i | 0 <= i < ENTRIES :: TableBlock(w', base, d, i) == TableBlock(w, base, d, i)
  {
    assert forall i | 0 <= i < ENTRIES :: TableBlock(w', base, d, i) == TableBlock(w, base, d, i);
  }

  /** Writing tables leaves the directory itself in place. */
  lemma TablesOnlyKeepsDirectory(w: seq<Word>, w': seq<Word>, base: nat, d: int)
    requires IsDirectory(w, base, d) && OnlyTables(w, w', base, d)
    ensures IsDirectory(w', base, d)
    ensures forall i | 0 <= i < ENTRIES :: TableBlock(w', base, d, i) == TableBlock(w, base, d, i)
    ensures forall i | 0 <= i < ENTRIES :: BlockEntry(w', d, i) == BlockEntry(w, d, i)
  {
    forall i | 0 <= i < ENTRIES
      ensures BlockEntry(w', d, i) == BlockEntry(w, d, i)
    {
      assert (d * ENTRIES + i) / ENTRIES == d;
      assert !IsTable(w, base, d, d);
    }
    DirectoryKept(w, w', base, d);
  }

  /** The write of paging_set: one page of the flat map changes and no other. */
  lemma SetOnePage(w: seq<Word>, base: nat, d: int, p: int, val: Word)
    requires IsDirectory(w, base, d) && 0 <= p < PAGES
    ensures var w' := w[Slot(w, base, d, p) := val];
            && OnlyTables(w, w', base, d)
            && IsDirectory(w', base, d)
            && Flat(w', base, d) == Flat(w, base, d)[p := val]
  {
    var w' := w[Slot(w, base, d, p) := val];
    assert IsTable(w, base, d, Slot(w, base, d, p) / ENTRIES);
    TablesOnlyKeepsDirectory(w, w', base, d);
    forall q | 0 <= q < PAGES
      ensures Flat(w', base, d)[q] == Flat(w, base, d)[p := val][q]
    {
      assert Slot(w', base, d, q) == Slot(w, base, d, q);
      if q != p {
        SlotsDistinct(w, base, d, p, q);
      }
    }
  }

  lemma TablesUntouched(w: seq<Word>, base: nat, d: int)
    requires IsDirectory(w, base, d)
    ensures OnlyTables(w, w, base, d)
  {
  }

  lemma OnlyTablesTrans(w: seq<Word>, w': seq<Word>, w'': seq<Word>, base: nat, d: int)
    requires IsDirectory(w, base, d) && OnlyTables(w, w', base, d)
    requires IsDirectory(w', base, d) && OnlyTables(w', w'', base, d)
    ensures OnlyTables(w, w'', base, d)
  {
    TablesOnlyKeepsDirectory(w, w', base, d);
    forall k | 0 <= k < |w| && !IsTable(w, base, d, k / ENTRIES)
      ensures w''[k] == w[k]
    {
      assert !IsTable(w', base, d, k / ENTRIES);
    }
  }

  // ------------------------------------------------------- address spaces

  /** The directory of the address space whose struct is in block c. */
  function DirectoryOf(w: seq<Word>, base: nat, c: int): int
    requires 0 <= c && (c + 1) * ENTRIES <= |w|
  {
    (w[c * ENTRIES] - base) / PAGE_SIZE
  }

  ghost predicate IsSpace(w: seq<Word>, base: nat, c: int) {
    && InPool(w, c)
    && var d := DirectoryOf(w, base, c);
    && IsDirectory(w, base, d) && w[c * ENTRIES] == base + d * PAGE_SIZE
    && c != d && !IsTable(w, base, d, c)
  }

  ghost predicate InSpace(w: seq<Word>, base: nat, c: int, b: int)
    requires IsSpace(w, base, c)
  {
    var d := DirectoryOf(w, base, c);
    b == c || b == d || IsTable(w, base, d, b)
  }

  /** Every block of the space is a live one-block chain. */
  ghost predicate SpaceLive(w: seq<Word>, base: nat, c: int, live: Chains)
    requires IsSpace(w, base, c)
  {
    forall b: nat | InSpace(w, base, c, b) :: b in live && live[b] == 1
  }

  ghost function Map(w: seq<Word>, base: nat, c: int): (f: seq<Word>)
    requires IsSpace(w, base, c)
    ensures |f| == PAGES
  {
    Flat(w, base, DirectoryOf(w, base, c))
  }

  lemma TablesOnlyKeepsSpace(w: seq<Word>, w': seq<Word>, base: nat, c: int)
    requires IsSpace(w, base, c) && OnlyTables(w, w', base, DirectoryOf(w, base, c))
    ensures IsSpace(w', base, c) && DirectoryOf(w', base, c) == DirectoryOf(w, base, c)
    ensures forall b :: InSpace(w', base, c, b) <==> InSpace(w, base, c, b)
  {
    var d := DirectoryOf(w, base, c);
    assert c * ENTRIES / ENTRIES == c;
    TablesOnlyKeepsDirectory(w, w', base, d);
    assert forall b :: IsTable(w', base, d, b) <==> IsTable(w, base, d, b);
  }

  /** Memory of the space's own blocks decides the space: anything else may change. */
  lemma SpaceKept(w: seq<Word>, w': seq<Word>, base: nat, c: int)
    requires IsSpace(w, base, c) && |w'| == |w|
    requires forall k | 0 <= k < |w| && InSpace(w, base, c, k / ENTRIES) :: w'[k] == w[k]
    ensures IsSpace(w', base, c) && DirectoryOf(w', base, c) == DirectoryOf(w, base, c)
    ensures forall b :: InSpace(w', base, c, b) <==> InSpace(w, base, c, b)
    ensures Map(w', base, c) == Map(w, base, c)
  {
    var d := DirectoryOf(w, base, c);
    assert c * ENTRIES / ENTRIES == c;
    forall i | 0 <= i < ENTRIES
      ensures BlockEntry(w', d, i) == BlockEntry(w, d, i)
    {
      assert (d * ENTRIES + i) / ENTRIES == d;
    }
    DirectoryKept(w, w', base, d);
    assert forall b :: IsTable(w', base, d, b) <==> IsTable(w, base, d, b);
    forall p | 0 <= p < PAGES
      ensures Flat(w', base, d)[p] == Flat(w, base, d)[p]
    {
      var k := Slot(w, base, d, p);
      assert Slot(w', base, d, p) == k;
      assert IsTable(w, base, d, k / ENTRIES);
    }
  }

  /** Isolation: page-table writes in one space leave every space made of other blocks alone. */
  lemma SpacesIsolated(w: seq<Word>, w': seq<Word>, base: nat, c: int, other: int)
    requires IsSpace(w, base, c) && OnlyTables(w, w', base, DirectoryOf(w, base, c))
    requires IsSpace(w, base, other)
    requires forall b :: !(InSpace(w, base, c, b) && InSpace(w, base, other, b))
    ensures IsSpace(w', base, other) && Map(w', base, other) == Map(w, base, other)
  {
    forall k | 0 <= k < |w| && InSpace(w, base, other, k / ENTRIES)
      ensures w'[k] == w[k]
    {
      assert !InSpace(w, base, c, k / ENTRIES);
    }
    SpaceKept(w, w', base, other);
  }

  /** w' is w with the space's flat map replaced by f: the space is still there,
      with the same blocks, and no word outside its tables changed. */
  ghost predicate Remapped(w: seq<Word>, w': seq<Word>, base: nat, c: int, f: seq<Word>)
    requires IsSpace(w, base, c)
  {
    && OnlyTables(w, w', base, DirectoryOf(w, base, c))
    && IsSpace(w', base, c) && DirectoryOf(w', base, c) == DirectoryOf(w, base, c)
    && Map(w', base, c) == f
  }

  lemma RemappedNot(w: seq<Word>, base: nat, c: int)
    requires IsSpace(w, base, c)
    ensures Remapped(w, w, base, c, Map(w, base, c))
  {
  }

  lemma RemappedTwice(w: seq<Word>, w': seq<Word>, w'': seq<Word>, base: nat, c: int, f: seq<Word>, f': seq<Word>)
    requires IsSpace(w, base, c) && Remapped(w, w', base, c, f) && Remapped(w', w'', base, c, f')
    ensures Remapped(w, w'', base, c, f')
  {
    OnlyTablesTrans(w, w', w'', base, DirectoryOf(w, base, c));
  }

  // ------------------------------------------------------- mapping ranges

  function PageEntry(page: int, flags: Word): Word {
    Tag(page % PAGES * PAGE_SIZE, flags)
  }

  /** n steps of paging_map_range; page numbers wrap around like 32-bit addresses. */
  function MapPages(f: seq<Word>, virt: nat, phys: nat, n: int, flags: Word): (r: seq<Word>)
    requires |f| == PAGES
    ensures |r| == PAGES
    decreases n
  {
    if n <= 0 then f
    else MapPages(f, virt, phys, n - 1, flags)[(virt + n - 1) % PAGES := PageEntry(phys + n - 1, flags)]
  }

  /** The address i pages on, in 32-bit arithmetic */
  function Stepped(start: Word, i: nat): Word {
    (start + i * PAGE_SIZE) % WORD_LIMIT
  }

  /** One more step of the loop, in terms of the wrapped addresses it carries. */
  lemma MapOneMore(f: seq<Word>, virt: Word, phys: Word, i: nat, flags: Word, v: Word, p: Word)
    requires |f| == PAGES && virt % PAGE_SIZE == 0 && phys % PAGE_SIZE == 0
    requires v == Stepped(virt, i) && p == Stepped(phys, i)
    ensures v % PAGE_SIZE == 0 && p % PAGE_SIZE == 0
    ensures MapPages(f, virt / PAGE_SIZE, phys / PAGE_SIZE, i + 1, flags)
         == MapPages(f, virt / PAGE_SIZE, phys / PAGE_SIZE, i, flags)[v / PAGE_SIZE := Tag(p, flags)]
  {
    hide Tag, Stepped;
    PageOfWrapped(virt, i);
    PageOfWrapped(phys, i);
    MapNextPage(f, virt / PAGE_SIZE, phys / PAGE_SIZE, i, flags);
  }

  lemma MapNextPage(f: seq<Word>, virt: nat, phys: nat, i: nat, flags: Word)
    requires |f| == PAGES
    ensures MapPages(f, virt, phys, i + 1, flags)
         == MapPages(f, virt, phys, i, flags)[(virt + i) % PAGES := Tag((phys + i) % PAGES * PAGE_SIZE, flags)]
  {
    hide Tag;
  }

  lemma PageOfWrapped(a: Word, i: nat)
    requires a % PAGE_SIZE == 0
    ensures Stepped(a, i) == (a / PAGE_SIZE + i) % PAGES * PAGE_SIZE
    ensures Stepped(a, i) % PAGE_SIZE == 0 && Stepped(a, i) / PAGE_SIZE == (a / PAGE_SIZE + i) % PAGES
  {
    var n := a / PAGE_SIZE + i;
    assert a + i * PAGE_SIZE == n * PAGE_SIZE;
    Quotient(n * PAGE_SIZE, WORD_LIMIT, n / PAGES, n % PAGES * PAGE_SIZE);
    Quotient(n % PAGES * PAGE_SIZE, PAGE_SIZE, n % PAGES, 0);
  }

  lemma {:induction false} MapPagesAt(f: seq<Word>, virt: nat, phys: nat, n: int, flags: Word, p: nat)
    requires |f| == PAGES && p < PAGES
    ensures var i := (p - virt) % PAGES;
            MapPages(f, virt, phys, n, flags)[p] == if i < n then PageEntry(phys + i, flags) else f[p]
    decreases n
  {
    hide PageEntry;
    if n > 0 {
      MapPagesAt(f, virt, phys, n - 1, flags, p);
      WrappedOffset(p, virt, n - 1);
      WrappedPage(phys, n - 1, flags);
    }
  }

  lemma WrappedOffset(p: nat, virt: nat, last: nat)
    requires p < PAGES
    ensures (virt + last) % PAGES == p <==> (p - virt) % PAGES == last % PAGES
    ensures last % PAGES <= last
  {
    if (virt + last) % PAGES == p {
      Shifted(p - virt, PAGES, (virt + last) / PAGES);
    }
    if (p - virt) % PAGES == last % PAGES {
      Shifted(p, PAGES, last / PAGES - (p - virt) / PAGES);
    }
  }

  lemma WrappedPage(phys: nat, last: nat, flags: Word)
    ensures PageEntry(phys + last, flags) == PageEntry(phys + last % PAGES, flags)
  {
    hide Tag;
    Shifted(phys + last % PAGES, PAGES, last / PAGES);
  }

  /** Translation of an address by a flat map, as paging_get_physical_address does it. */
  function Translate(f: seq<Word>, v: Word): Word
    requires |f| == PAGES
  {
    Mask(f[v / PAGE_SIZE]) + v % PAGE_SIZE
  }

  /** The directory entry and the table entry that the processor's walk finds for an address: ten
      bits index the directory, the next ten the table it points at. */
  ghost function WalkDirectory(w: seq<Word>, d: int, v: Word): Word
    requires InPool(w, d)
  {
    w[d * 1024 + v / 0x400000]
  }

  ghost function WalkTable(w: seq<Word>, base: nat, d: int, v: Word): (r: Word)
    requires IsDirectory(w, base, d)
    ensures r == Flat(w, base, d)[v / 4096]
  {
    var entry, i := WalkDirectory(w, d, v), v / 0x400000;
    assert BlockEntry(w, d, i) == entry && i == v / 4096 / 1024;
    assert (entry - entry % 4096 - base) / 4 == TableBlock(w, base, d, i) * 1024;
    w[(entry - entry % 4096 - base) / 4 + v / 4096 % 1024]
  }

  /** The walk ends where the flat map says. */
  lemma WalkTranslates(w: seq<Word>, base: nat, d: int, v: Word)
    requires IsDirectory(w, base, d)
    ensures var page := WalkTable(w, base, d, v);
            page - page % 4096 + v % 4096 == Translate(Flat(w, base, d), v)
  {
    hide WalkTable;
  }

  /** Inside a mapped range every byte translates to phys plus its distance from virt. */
  lemma MappedTranslates(f: seq<Word>, virt: Word, phys: Word, n: nat, flags: Word, v: Word)
    requires |f| == PAGES && virt % PAGE_SIZE == 0 && phys % PAGE_SIZE == 0 && flags < PAGE_SIZE
    requires virt <= v < virt + n * PAGE_SIZE && phys + n * PAGE_SIZE <= WORD_LIMIT
    ensures Translate(MapPages(f, virt / PAGE_SIZE, phys / PAGE_SIZE, n, flags), v) == phys + (v - virt)
  {
    var vp, pp, p := virt / PAGE_SIZE, phys / PAGE_SIZE, v / PAGE_SIZE;
    hide Mask;
    assert virt == vp * PAGE_SIZE && phys == pp * PAGE_SIZE;
    assert 0 <= p - vp < n && pp + n <= PAGES;
    MappedEntry(f, vp, pp, n, flags, p);
  }

  lemma MappedEntry(f: seq<Word>, virt: nat, phys: nat, n: nat, flags: Word, p: nat)
    requires |f| == PAGES && flags < PAGE_SIZE
    requires virt <= p < virt + n && p < PAGES && phys + n <= PAGES
    ensures Mask(MapPages(f, virt, phys, n, flags)[p]) == (phys + (p - virt)) * PAGE_SIZE
  {
    Quotient(p - virt, PAGES, 0, p - virt);
    MapPagesAt(f, virt, phys, n, flags, p);
    EntryAddress(phys + (p - virt), flags);
  }

  /** The flags of an entry, bit by bit */
  lemma EntryBits(page: nat, flags: Word, mask: Word)
    requires page < PAGES && flags < PAGE_SIZE && mask < PAGE_SIZE
    ensures And(PageEntry(page, flags), mask) == And(flags, mask)
  {
    hide Tag, And;
    Quotient(page, PAGES, 0, page);
    Quotient(page * PAGE_SIZE, PAGE_SIZE, page, 0);
    AndTagged(page * PAGE_SIZE, flags, mask);
  }

  lemma EntryAddress(page: nat, flags: Word)
    requires page < PAGES && flags < PAGE_SIZE
    ensures Mask(PageEntry(page, flags)) == page * PAGE_SIZE
  {
    hide Tag;
    Quotient(page, PAGES, 0, page);
    Quotient(page * PAGE_SIZE, PAGE_SIZE, page, 0);
    Quotient(page * PAGE_SIZE + flags, PAGE_SIZE, page, flags);
  }

  /** Outside it nothing moves. */
  lemma UnmappedTranslates(f: seq<Word>, virt: Word, phys: Word, n: nat, flags: Word, v: Word)
    requires |f| == PAGES && virt % PAGE_SIZE == 0 && virt + n * PAGE_SIZE <= WORD_LIMIT
    requires v < virt || virt + n * PAGE_SIZE <= v
    ensures Translate(MapPages(f, virt / PAGE_SIZE, phys / PAGE_SIZE, n, flags), v) == Translate(f, v)
  {
    hide Mask;
    var vp, p := virt / PAGE_SIZE, v / PAGE_SIZE;
    assert virt == vp * PAGE_SIZE && vp + n <= PAGES;
    if p < vp {
      Quotient(p - vp, PAGES, -1, p - vp + PAGES);
    } else {
      Quotient(p - vp, PAGES, 0, p - vp);
    }
    MapPagesAt(f, vp, phys / PAGE_SIZE, n, flags, p);
  }
}

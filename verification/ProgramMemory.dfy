/** Mapping a loaded program into its task's address space (src/task/process.c:369-425). */
module ProgramMemory {
  import opened Arithmetic
  import opened Words
  import opened Heaps
  import opened AddressSpace
  import opened PageTables
  import opened Paging

  const PROGRAM_VIRTUAL_ADDRESS: Word := 0x400000
  const USER_PROGRAM_STACK_SIZE: Word := 1024 * 16
  const STACK_ADDRESS_START: Word := 0x3FF000
  const STACK_ADDRESS_END: Word := 0x3FF000 - 1024 * 16
  const PF_W := 2

  /** The fields of struct elf32_phdr that mapping looks at. */
  datatype Segment = Segment(vaddr: Word, offset: Word, memsz: Word, flags: Word)

  /** What paging_map_to is asked to map: whole pages, as the callers round them. */
  datatype Mapping = Mapping(virt: Word, phys: Word, physEnd: Word, flags: Word) {
    predicate Accepted() {
      virt % PAGE_SIZE == 0 && phys % PAGE_SIZE == 0 && physEnd % PAGE_SIZE == 0 && phys <= physEnd
    }

    function Pages(): int {
      (physEnd - phys) / PAGE_SIZE
    }

    /** The flat map after paging_map_to. */
    function On(f: seq<Word>): (r: seq<Word>)
      requires |f| == PAGES
      ensures |r| == PAGES
    {
      if Accepted() then RangeMap(f, virt, phys, Pages(), flags) else f
    }

    /** The address lies in a page this mapping covers. */
    predicate Covers(v: int) {
      virt <= v < virt + (physEnd - phys)
    }
  }

  /** elf_phdr_phys_address, in 32-bit arithmetic */
  function PhysAddress(memory: Word, s: Segment): Word {
    (memory + s.offset) % WORD_LIMIT
  }

  /** The call process_map_elf makes for a segment. */
  function SegmentMapping(memory: Word, s: Segment): Mapping {
    var phys := PhysAddress(memory, s);
    var flags: Word := if And(s.flags, PF_W) != 0 then USER_FLAGS else IS_PRESENT + ACCESS_FROM_ALL;
    Mapping(AlignToLowerPage(s.vaddr), AlignToLowerPage(phys),
            AlignAddress((phys + s.memsz) % WORD_LIMIT), flags)
  }

  /** process_map_elf on the flat map: result code and map, up to the first refused segment. */
  function MapSegments(f: seq<Word>, memory: Word, segments: seq<Segment>): (r: (int, seq<Word>))
    requires |f| == PAGES
    ensures |r.1| == PAGES
    decreases |segments|
  {
    if segments == [] then (0, f)
    else
      var m := SegmentMapping(memory, segments[0]);
      if m.Accepted() then MapSegments(m.On(f), memory, segments[1..]) else (-EINVARG, f)
  }

  /** paging_map_to for one mapping, on a space whose flat map is g by now and was that of w */
  method MapOne(heap: Heap, chunk: Word, m: Mapping, ghost w: seq<Word>, ghost g: seq<Word>) returns (res: int)
    requires heap.Layout() && IsBlock(heap, chunk) && IsSpace(w, heap.saddr, heap.Block(chunk)) && |g| == PAGES
    requires Remapped(w, heap.pool[..], heap.saddr, heap.Block(chunk), g)
    modifies heap.pool
    ensures res == if m.Accepted() then 0 else -EINVARG
    ensures Remapped(w, heap.pool[..], heap.saddr, heap.Block(chunk), m.On(g))
  {
    hide IsSpace, OnlyTables, RangeMap;
    ghost var w' := heap.pool[..];
    res := MapTo(heap, chunk, m.virt, m.phys, m.physEnd, m.flags);
    RemappedTwice(w, w', heap.pool[..], heap.saddr, heap.Block(chunk), g, m.On(g));
  }

  lemma MapSegmentsStep(g: seq<Word>, memory: Word, segments: seq<Segment>, i: nat)
    requires |g| == PAGES && i < |segments|
    ensures var m := SegmentMapping(memory, segments[i]);
            MapSegments(g, memory, segments[i..])
            == if m.Accepted() then MapSegments(m.On(g), memory, segments[i + 1..]) else (-EINVARG, m.On(g))
  {
    hide SegmentMapping;
    assert segments[i..][1..] == segments[i + 1..];
  }

  /** process_map_elf */
  method MapElf(heap: Heap, chunk: Word, memory: Word, segments: seq<Segment>) returns (res: int)
    requires heap.Layout() && SpaceAt(heap, chunk)
    modifies heap.pool
    ensures var (r, f) := MapSegments(old(SpaceMap(heap, chunk)), memory, segments);
            res == r && Remapped(old(heap.pool[..]), heap.pool[..], heap.saddr, heap.Block(chunk), f)
  {
    hide IsSpace, SegmentMapping, Mapping.On, Mapping.Accepted, MapSegments, Map;
    ghost var w, c := heap.pool[..], heap.Block(chunk);
    ghost var f := Map(w, heap.saddr, c);
    ghost var g := f;
    res := 0;
    RemappedNot(w, heap.saddr, c);
    hide Remapped;
    assert segments[0..] == segments;
    for i := 0 to |segments|
      invariant res == 0 && |g| == PAGES
      invariant Remapped(w, heap.pool[..], heap.saddr, c, g)
      invariant MapSegments(f, memory, segments) == MapSegments(g, memory, segments[i..])
    {
      var m := SegmentMapping(memory, segments[i]);
      MapSegmentsStep(g, memory, segments, i);
      res := MapOne(heap, chunk, m, w, g);
      g := m.On(g);
      if res < 0 {
        return;
      }
    }
    NoSegments(g, memory, segments[|segments|..]);
  }

  lemma NoSegments(g: seq<Word>, memory: Word, segments: seq<Segment>)
    requires |g| == PAGES && |segments| == 0
    ensures MapSegments(g, memory, segments) == (0, g)
  {
  }

  /** struct process: what was loaded, by file type. */
  datatype Program =
    | Elf(memory: Word, segments: seq<Segment>)
    | Binary(ptr: Word, size: Word)

  /** The call process_map_binary makes. */
  function BinaryMapping(ptr: Word, size: Word): Mapping {
    Mapping(PROGRAM_VIRTUAL_ADDRESS, ptr, AlignAddress((ptr + size) % WORD_LIMIT), USER_FLAGS)
  }

  function StackMapping(stack: Word): Mapping {
    Mapping(STACK_ADDRESS_END, stack, AlignAddress((stack + USER_PROGRAM_STACK_SIZE) % WORD_LIMIT), USER_FLAGS)
  }

  /** process_map_memory on the flat map; the result of mapping the stack is not looked at. */
  function MapProgram(f: seq<Word>, p: Program, stack: Word): (r: (int, seq<Word>))
    requires |f| == PAGES
    ensures |r.1| == PAGES
  {
    var (res, g) := match p
      case Elf(memory, segments) => MapSegments(f, memory, segments)
      case Binary(ptr, size) =>
        var m := BinaryMapping(ptr, size);
        (if m.Accepted() then 0 else -EINVARG, m.On(f));
    if res < 0 then (res, g) else (res, StackMapping(stack).On(g))
  }

  /** process_map_memory */
  method MapMemory(heap: Heap, chunk: Word, p: Program, stack: Word) returns (res: int)
    requires heap.Layout() && SpaceAt(heap, chunk)
    modifies heap.pool
    ensures var (r, f) := MapProgram(old(SpaceMap(heap, chunk)), p, stack);
            res == r && Remapped(old(heap.pool[..]), heap.pool[..], heap.saddr, heap.Block(chunk), f)
  {
    hide IsSpace, MapSegments, BinaryMapping, StackMapping, Mapping.On, OnlyTables;
    ghost var w, g := heap.pool[..], SpaceMap(heap, chunk);
    RemappedNot(w, heap.saddr, heap.Block(chunk));
    match p {
      case Elf(memory, segments) =>
        res := MapElf(heap, chunk, memory, segments);
        g := MapSegments(g, memory, segments).1;
      case Binary(ptr, size) =>
        var m := BinaryMapping(ptr, size);
        res := MapOne(heap, chunk, m, w, g);
        g := m.On(g);
    }
    if res < 0 {
      return;
    }
    var m := StackMapping(stack);
    var _ := MapOne(heap, chunk, m, w, g);
  }

  // ------------------------------------------------------------- the image

  lemma OneMapping(f: seq<Word>, m: Mapping, v: Word)
    requires |f| == PAGES && m.Accepted() && m.flags < PAGE_SIZE
    requires m.virt + (m.physEnd - m.phys) <= WORD_LIMIT
    ensures Translate(m.On(f), v) == if m.Covers(v) then m.phys + (v - m.virt) else Translate(f, v)
  {
    hide Translate;
    if m.Covers(v) {
      MappedTranslates(f, m.virt, m.phys, m.Pages(), m.flags, v);
    } else {
      UnmappedTranslates(f, m.virt, m.phys, m.Pages(), m.flags, v);
    }
  }

  /** The segment's bytes lie in memory below the last page, the virtual address has
      the same offset in its page as they do, and its pages end below the last page. */
  predicate Loadable(memory: Word, s: Segment) {
    && memory + s.offset + s.memsz <= 0xfffff000
    && s.vaddr % PAGE_SIZE == (memory + s.offset) % PAGE_SIZE
    && s.vaddr + s.memsz <= 0xfffff000
  }

  /** Without wrap-around the mapping is the three addresses, each rounded on its own. */
  lemma MappingIs(memory: Word, s: Segment)
    requires memory + s.offset + s.memsz <= 0xfffff000
    ensures var m, a := SegmentMapping(memory, s), memory + s.offset;
            && m.virt == AlignToLowerPage(s.vaddr) && m.phys == AlignToLowerPage(a)
            && m.physEnd == AlignAddress(a + s.memsz) && m.flags < PAGE_SIZE
            && m.virt % PAGE_SIZE == 0 && m.phys % PAGE_SIZE == 0 && m.physEnd % PAGE_SIZE == 0
            && a + s.memsz <= m.physEnd < a + s.memsz + PAGE_SIZE
  {
    hide AlignAddress, AlignToLowerPage, And;
    Quotient(memory + s.offset, WORD_LIMIT, 0, memory + s.offset);
    Quotient(memory + s.offset + s.memsz, WORD_LIMIT, 0, memory + s.offset + s.memsz);
  }

  lemma LoadableMapping(memory: Word, s: Segment)
    requires Loadable(memory, s)
    ensures var m := SegmentMapping(memory, s);
            && m.Accepted() && m.flags < PAGE_SIZE
            && m.virt + (m.physEnd - m.phys) <= WORD_LIMIT
            && m.virt <= s.vaddr && s.vaddr + s.memsz <= m.virt + (m.physEnd - m.phys)
            && m.phys + (s.vaddr - m.virt) == memory + s.offset
  {
    MappingIs(memory, s);
    LowerPage(s.vaddr);
    LowerPage(memory + s.offset);
    hide SegmentMapping, AlignAddress, AlignToLowerPage;
  }

  /** The address is in a page mapped for the segment. */
  predicate InPages(memory: Word, s: Segment, v: int) {
    SegmentMapping(memory, s).Covers(v)
  }

  predicate InStack(v: int) {
    STACK_ADDRESS_END <= v < STACK_ADDRESS_START
  }

  /** Segments that can be loaded, with no page in common and none in the stack. */
  ghost predicate GoodImage(memory: Word, segments: seq<Segment>) {
    && (forall j | 0 <= j < |segments| :: Loadable(memory, segments[j]))
    && (forall i, j, v | 0 <= i < j < |segments| && InPages(memory, segments[i], v) ::
          !InPages(memory, segments[j], v))
    && (forall j, v | 0 <= j < |segments| && InPages(memory, segments[j], v) :: !InStack(v))
  }

  /** A byte mapped by segment i and by no later one, and a byte mapped by none. */
  lemma {:induction false} SegmentsTranslate(f: seq<Word>, memory: Word, segments: seq<Segment>, i: int, v: Word)
    requires |f| == PAGES && -1 <= i < |segments|
    requires forall j | 0 <= j < |segments| :: Loadable(memory, segments[j])
    requires i >= 0 ==> InPages(memory, segments[i], v)
    requires forall j | i < j < |segments| :: !InPages(memory, segments[j], v)
    ensures var (res, g) := MapSegments(f, memory, segments);
            && res == 0
            && Translate(g, v) == if i < 0 then Translate(f, v)
                                  else var m := SegmentMapping(memory, segments[i]); m.phys + (v - m.virt)
    decreases |segments|
  {
    if segments != [] {
      hide Translate, SegmentMapping, Loadable;
      var m := SegmentMapping(memory, segments[0]);
      LoadableMapping(memory, segments[0]);
      OneMapping(f, m, v);
      SegmentsTranslate(m.On(f), memory, segments[1..], if i > 0 then i - 1 else -1, v);
    }
  }

  /** The first refused segment is reported, and the map is the one the segments before it leave:
      neither a later segment nor the stack is mapped. Without one, none is reported. */
  lemma {:induction false} RefusedStops(f: seq<Word>, memory: Word, segments: seq<Segment>, stack: Word, k: nat)
    requires |f| == PAGES && k <= |segments|
    requires forall j | 0 <= j < k :: SegmentMapping(memory, segments[j]).Accepted()
    ensures MapSegments(f, memory, segments[..k]).0 == 0
    ensures k < |segments| && !SegmentMapping(memory, segments[k]).Accepted() ==>
              && MapSegments(f, memory, segments) == (-EINVARG, MapSegments(f, memory, segments[..k]).1)
              && MapProgram(f, Elf(memory, segments), stack) == (-EINVARG, MapSegments(f, memory, segments[..k]).1)
    decreases k
  {
    hide SegmentMapping, Mapping.On, Mapping.Accepted, StackMapping;
    if k > 0 {
      var g := SegmentMapping(memory, segments[0]).On(f);
      assert segments[..k][1..] == segments[1..][..k - 1] && segments[..k][0] == segments[0];
      RefusedStops(g, memory, segments[1..], stack, k - 1);
    }
  }

  /** Rounded to pages, a segment is refused exactly if its end wraps to below its start. */
  lemma RefusedIff(memory: Word, s: Segment)
    ensures var start := (memory + s.offset) % 0x1_0000_0000;
            var end := (start + s.memsz) % 0x1_0000_0000;
            !SegmentMapping(memory, s).Accepted()
            <==> (if end <= 0xfffff000 then end + 4095 - (end + 4095) % 4096 else 0) < start - start % 4096
  {
    hide And;
    var end := ((memory + s.offset) % 0x1_0000_0000 + s.memsz) % 0x1_0000_0000;
    if end <= 0xfffff000 {
      UpperPage(end);
    }
  }

  lemma UpperPage(a: Word)
    requires a <= 0xfffff000
    ensures AlignAddress(a) == a + 4095 - (a + 4095) % 4096
  {
    var r := AlignAddress(a);
    hide AlignAddress;
    Quotient(a + 4095, 4096, r / 4096, a + 4095 - r);
  }

  lemma StackMappingShape(stack: Word)
    requires stack % PAGE_SIZE == 0 && stack + USER_PROGRAM_STACK_SIZE <= 0xfffff000
    ensures var m := StackMapping(stack);
            && m.Accepted() && m.flags < PAGE_SIZE
            && m.virt + (m.physEnd - m.phys) <= WORD_LIMIT
            && m.virt == STACK_ADDRESS_END && m.phys == stack
            && forall v :: m.Covers(v) <==> STACK_ADDRESS_END <= v < STACK_ADDRESS_START
  {
    assert (stack + USER_PROGRAM_STACK_SIZE) % WORD_LIMIT == stack + USER_PROGRAM_STACK_SIZE;
  }

  lemma BinaryMappingShape(ptr: Word, size: Word)
    requires ptr % PAGE_SIZE == 0 && ptr + size <= 0xfffff000 && size <= 0xfffff000 - PROGRAM_VIRTUAL_ADDRESS
    ensures var m := BinaryMapping(ptr, size);
            && m.Accepted() && m.flags < PAGE_SIZE
            && m.virt + (m.physEnd - m.phys) <= WORD_LIMIT
            && m.virt == PROGRAM_VIRTUAL_ADDRESS && m.phys == ptr && ptr + size <= m.physEnd
  {
    hide AlignAddress;
    assert (ptr + size) % WORD_LIMIT == ptr + size;
  }

  lemma StackTranslates(f: seq<Word>, stack: Word, v: Word)
    requires |f| == PAGES && stack % PAGE_SIZE == 0 && stack + USER_PROGRAM_STACK_SIZE <= 0xfffff000
    ensures Translate(StackMapping(stack).On(f), v)
         == if STACK_ADDRESS_END <= v < STACK_ADDRESS_START then stack + (v - STACK_ADDRESS_END) else Translate(f, v)
  {
    hide Translate, StackMapping;
    StackMappingShape(stack);
    OneMapping(f, StackMapping(stack), v);
  }

  /** A loaded program sees its image: byte k of a segment at its virtual address. */
  lemma ProgramSeesImage(f: seq<Word>, memory: Word, segments: seq<Segment>, stack: Word, i: nat, k: nat, v: Word)
    requires |f| == PAGES && stack % PAGE_SIZE == 0 && stack + USER_PROGRAM_STACK_SIZE <= 0xfffff000
    requires GoodImage(memory, segments)
    requires i < |segments| && k < segments[i].memsz && v == segments[i].vaddr + k
    ensures var (res, g) := MapProgram(f, Elf(memory, segments), stack);
            res == 0 && Translate(g, v) == memory + segments[i].offset + k
  {
    hide Translate, SegmentMapping, Loadable, StackMapping;
    LoadableMapping(memory, segments[i]);
    assert InPages(memory, segments[i], v) && !InStack(v);
    SegmentsTranslate(f, memory, segments, i, v);
    StackTranslates(MapSegments(f, memory, segments).1, stack, v);
  }

  /** It sees its stack below 0x3FF000, and every address in none of these pages is as it was. */
  lemma ProgramSeesStackAndRest(f: seq<Word>, memory: Word, segments: seq<Segment>, stack: Word, v: Word)
    requires |f| == PAGES && stack % PAGE_SIZE == 0 && stack + USER_PROGRAM_STACK_SIZE <= 0xfffff000
    requires GoodImage(memory, segments)
    requires InStack(v) || forall j | 0 <= j < |segments| :: !InPages(memory, segments[j], v)
    ensures var (res, g) := MapProgram(f, Elf(memory, segments), stack);
            && res == 0
            && Translate(g, v) == if InStack(v) then stack + (v - STACK_ADDRESS_END) else Translate(f, v)
  {
    hide Translate, SegmentMapping, Loadable, StackMapping;
    SegmentsTranslate(f, memory, segments, -1, v);
    StackTranslates(MapSegments(f, memory, segments).1, stack, v);
  }

  lemma IdentityTranslates(f: seq<Word>, flags: Word, v: Word)
    requires IsIdentity(f, flags) && flags < PAGE_SIZE
    ensures Translate(f, v) == v
  {
    EntryAddress(v / PAGE_SIZE, flags);
  }

  /** In an address space just built, as task_init leaves it, an address in none of the pages
      mapped for the program or its stack still translates to itself. */
  lemma UntouchedIsIdentity(f: seq<Word>, flags: Word, memory: Word, segments: seq<Segment>, stack: Word, v: Word)
    requires IsIdentity(f, flags) && flags < PAGE_SIZE
    requires stack % PAGE_SIZE == 0 && stack + USER_PROGRAM_STACK_SIZE <= 0xfffff000
    requires GoodImage(memory, segments)
    requires !InStack(v) && forall j | 0 <= j < |segments| :: !InPages(memory, segments[j], v)
    ensures var (res, g) := MapProgram(f, Elf(memory, segments), stack);
            res == 0 && Translate(g, v) == v
  {
    hide Translate, IsIdentity, GoodImage;
    IdentityTranslates(f, flags, v);
    assert |f| == PAGES by { IdentityLength(f, flags); }
    ProgramSeesStackAndRest(f, memory, segments, stack, v);
  }

  lemma IdentityLength(f: seq<Word>, flags: Word)
    requires IsIdentity(f, flags)
    ensures |f| == PAGES
  {
  }

  /** A flat binary appears at 0x400000. */
  lemma BinarySeesImage(f: seq<Word>, ptr: Word, size: Word, stack: Word, k: nat)
    requires |f| == PAGES && stack % PAGE_SIZE == 0 && stack + USER_PROGRAM_STACK_SIZE <= 0xfffff000
    requires ptr % PAGE_SIZE == 0 && ptr + size <= 0xfffff000
    requires size <= 0xfffff000 - PROGRAM_VIRTUAL_ADDRESS && k < size
    ensures var (res, g) := MapProgram(f, Binary(ptr, size), stack);
            res == 0 && Translate(g, PROGRAM_VIRTUAL_ADDRESS + k) == ptr + k
  {
    hide Translate, BinaryMapping, StackMapping;
    BinaryMappingShape(ptr, size);
    OneMapping(f, BinaryMapping(ptr, size), PROGRAM_VIRTUAL_ADDRESS + k);
    StackTranslates(BinaryMapping(ptr, size).On(f), stack, PROGRAM_VIRTUAL_ADDRESS + k);
  }

  // ------------------------------------------------------------- permissions

  /** The entry of a page that a mapping covers, or does not */
  lemma OneEntry(f: seq<Word>, m: Mapping, p: nat, mask: Word)
    requires |f| == PAGES && m.Accepted() && m.flags < PAGE_SIZE && p < PAGES && mask < PAGE_SIZE
    requires m.virt + (m.physEnd - m.phys) <= WORD_LIMIT
    ensures if m.Covers(p * PAGE_SIZE) then And(m.On(f)[p], mask) == And(m.flags, mask) else m.On(f)[p] == f[p]
  {
    hide And, PageEntry;
    var v, q, n := m.virt / PAGE_SIZE, m.phys / PAGE_SIZE, m.Pages();
    assert m.virt == v * PAGE_SIZE && v + n <= PAGES && m.physEnd == (q + n) * PAGE_SIZE;
    MapPagesAt(f, v, q, n, m.flags, p);
    if v <= p {
      Quotient(p - v, PAGES, 0, p - v);
      if p - v < n {
        EntryBits(q + (p - v), m.flags, mask);
      }
    } else {
      Quotient(p - v, PAGES, -1, p - v + PAGES);
    }
  }

  lemma {:induction false} SegmentsEntries(f: seq<Word>, memory: Word, segments: seq<Segment>, i: int, p: nat,
                                           mask: Word)
    requires |f| == PAGES && -1 <= i < |segments| && p < PAGES && mask < PAGE_SIZE
    requires forall j | 0 <= j < |segments| :: Loadable(memory, segments[j])
    requires i >= 0 ==> InPages(memory, segments[i], p * PAGE_SIZE)
    requires forall j | i < j < |segments| :: !InPages(memory, segments[j], p * PAGE_SIZE)
    ensures var (res, g) := MapSegments(f, memory, segments);
            && res == 0
            && if i < 0 then g[p] == f[p] else And(g[p], mask) == And(SegmentMapping(memory, segments[i]).flags, mask)
    decreases |segments|
  {
    if segments != [] {
      hide SegmentMapping, Loadable, And, Mapping.On;
      var m := SegmentMapping(memory, segments[0]);
      LoadableMapping(memory, segments[0]);
      OneEntry(f, m, p, mask);
      SegmentsEntries(m.On(f), memory, segments[1..], if i > 0 then i - 1 else -1, p, mask);
    }
  }

  lemma SegmentBits(memory: Word, s: Segment)
    ensures var flags := SegmentMapping(memory, s).flags;
            And(flags, 1) == 1 && And(flags, 4) == 4 && (And(flags, 2) == 2 <==> And(s.flags, 2) != 0)
  {
    UserBits();
    assert And(5, 1) == 1 && And(5, 2) == 0 && And(5, 4) == 4 by {
      assert And(1, 1) == 1 && And(1, 2) == 0 && And(2, 2) == 2 && And(2, 1) == 0 && And(2, 0) == 0;
    }
  }

  /** Bits 0, 1 and 2 of a page-table entry: the page is present, writable, and for the user. */
  ghost predicate HasBits(entry: Word, writable: bool) {
    And(entry, 1) == 1 && And(entry, 2) == (if writable then 2 else 0) && And(entry, 4) == 4
  }

  lemma SecondBit(a: nat)
    ensures And(a, 2) == 0 || And(a, 2) == 2
  {
    assert And(a / 2 / 2, 0) == 0;
    assert And(a / 2, 1) == a / 2 % 2;
  }

  /** Every page of a segment is for the user, and writable exactly if the segment is. */
  lemma SegmentPermissions(f: seq<Word>, memory: Word, segments: seq<Segment>, stack: Word, i: nat, p: nat)
    requires |f| == PAGES && stack % PAGE_SIZE == 0 && stack + USER_PROGRAM_STACK_SIZE <= 0xfffff000
    requires GoodImage(memory, segments) && i < |segments| && p < PAGES
    requires var s := segments[i]; s.vaddr - s.vaddr % 4096 <= p * 4096 < s.vaddr + s.memsz
    ensures HasBits(MapProgram(f, Elf(memory, segments), stack).1[p], And(segments[i].flags, 2) != 0)
  {
    hide SegmentMapping, Loadable, StackMapping, And, Mapping.On;
    var s := segments[i];
    LoadableMapping(memory, s);
    SegmentStart(memory, s);
    assert InPages(memory, s, p * PAGE_SIZE) && !InStack(p * PAGE_SIZE);
    var g := MapSegments(f, memory, segments).1;
    SegmentsEntries(f, memory, segments, i, p, 1);
    SegmentsEntries(f, memory, segments, i, p, 2);
    SegmentsEntries(f, memory, segments, i, p, 4);
    SegmentBits(memory, s);
    SecondBit(g[p]);
    StackEntries(g, stack, p);
  }

  lemma SegmentStart(memory: Word, s: Segment)
    requires Loadable(memory, s)
    ensures SegmentMapping(memory, s).virt == s.vaddr - s.vaddr % 4096
  {
    MappingIs(memory, s);
  }

  lemma StackEntries(f: seq<Word>, stack: Word, p: nat)
    requires |f| == PAGES && stack % PAGE_SIZE == 0 && stack + USER_PROGRAM_STACK_SIZE <= 0xfffff000 && p < PAGES
    ensures if 0x3fb000 <= p * 4096 < 0x3ff000 then HasBits(StackMapping(stack).On(f)[p], true)
            else StackMapping(stack).On(f)[p] == f[p]
  {
    StackMappingShape(stack);
    UserBits();
    assert StackMapping(stack).flags == USER_FLAGS;
    hide StackMapping, And, Mapping.On;
    OneEntry(f, StackMapping(stack), p, 1);
    OneEntry(f, StackMapping(stack), p, 2);
    OneEntry(f, StackMapping(stack), p, 4);
  }

  /** A program loaded into a space that was built for the user: what the processor finds at byte k of
      a segment is that byte, the program may read it, and may write it exactly if the segment is
      writable. */
  lemma ProgramUsesImage(w: seq<Word>, w': seq<Word>, base: nat, c: int, flags: Word, memory: Word,
                         segments: seq<Segment>, stack: Word, i: nat, k: nat, v: Word)
    requires IsSpace(w, base, c) && DirectoryTagged(w, base, DirectoryOf(w, base, c), flags)
    requires And(flags, 1) == 1 && And(flags, 4) == 4
    requires Remapped(w, w', base, c, MapProgram(Map(w, base, c), Elf(memory, segments), stack).1)
    requires stack % PAGE_SIZE == 0 && stack + USER_PROGRAM_STACK_SIZE <= 0xfffff000
    requires GoodImage(memory, segments)
    requires i < |segments| && k < segments[i].memsz && v == segments[i].vaddr + k
    ensures var d := DirectoryOf(w', base, c);
            && IsDirectory(w', base, d)
            && var page := WalkTable(w', base, d, v);
            && page - page % 4096 + v % 4096 == memory + segments[i].offset + k
            && UserMay(w', base, d, v, false)
            && (UserMay(w', base, d, v, true) <==> And(segments[i].flags, 2) != 0)
  {
    hide And, MapProgram, GoodImage, DirectoryTagged, UserMay, IsDirectory, OnlyTables, WalkTable;
    var d, s := DirectoryOf(w, base, c), segments[i];
    DirectoryStaysTagged(w, w', base, d, flags);
    ProgramSeesImage(Map(w, base, c), memory, segments, stack, i, k, v);
    WalkTranslates(w', base, d, v);
    FirstPage(s, k, v);
    SegmentPermissions(Map(w, base, c), memory, segments, stack, i, v / PAGE_SIZE);
    PagesDecide(w', base, d, flags, v, false);
    PagesDecide(w', base, d, flags, v, true);
  }

  lemma FirstPage(s: Segment, k: nat, v: Word)
    requires k < s.memsz && v == s.vaddr + k
    ensures s.vaddr - s.vaddr % 4096 <= v / 4096 * 4096 < s.vaddr + s.memsz
  {
  }

  /** The four pages of the stack are present, writable and for the user, and a page of neither the
      stack nor a segment keeps its entry. */
  lemma StackAndRestPermissions(f: seq<Word>, memory: Word, segments: seq<Segment>, stack: Word, p: nat)
    requires |f| == PAGES && stack % PAGE_SIZE == 0 && stack + USER_PROGRAM_STACK_SIZE <= 0xfffff000
    requires GoodImage(memory, segments) && p < PAGES
    ensures var g := MapProgram(f, Elf(memory, segments), stack).1;
            if 0x3fb000 <= p * 4096 < 0x3ff000 then HasBits(g[p], true)
            else (forall j | 0 <= j < |segments| :: !InPages(memory, segments[j], p * 4096)) ==> g[p] == f[p]
  {
    hide SegmentMapping, Loadable, StackMapping, HasBits, Mapping.On;
    var none := forall j | 0 <= j < |segments| :: !InPages(memory, segments[j], p * 4096);
    if none || InStack(p * PAGE_SIZE) {
      SegmentsEntries(f, memory, segments, -1, p, 0);
      StackEntries(MapSegments(f, memory, segments).1, stack, p);
    }
  }

  /** Every page of a flat binary is present, writable and for the user. */
  lemma BinaryPermissions(f: seq<Word>, ptr: Word, size: Word, stack: Word, p: nat)
    requires |f| == PAGES && stack % PAGE_SIZE == 0 && stack + USER_PROGRAM_STACK_SIZE <= 0xfffff000
    requires ptr % PAGE_SIZE == 0 && ptr + size <= 0xfffff000 && size <= 0xfffff000 - PROGRAM_VIRTUAL_ADDRESS
    requires 0x400000 <= p * 4096 < 0x400000 + size
    ensures HasBits(MapProgram(f, Binary(ptr, size), stack).1[p], true)
  {
    BinaryMappingShape(ptr, size);
    UserBits();
    var m := BinaryMapping(ptr, size);
    assert m.flags == USER_FLAGS;
    hide BinaryMapping, StackMapping, And, Mapping.On;
    OneEntry(f, m, p, 1);
    OneEntry(f, m, p, 2);
    OneEntry(f, m, p, 4);
    StackEntries(m.On(f), stack, p);
  }

  /** The congruence in Loadable is exactly what a segment needs: both addresses are
      rounded down on their own, so otherwise its first byte already lands elsewhere. */
  lemma FirstByteRightIffCongruent(f: seq<Word>, memory: Word, s: Segment)
    requires |f| == PAGES && s.memsz > 0
    requires memory + s.offset + s.memsz <= 0xfffff000 && s.vaddr + s.memsz <= 0xffffe000
    ensures var m := SegmentMapping(memory, s);
            && m.Accepted()
            && (Translate(m.On(f), s.vaddr) == memory + s.offset
                <==> s.vaddr % PAGE_SIZE == (memory + s.offset) % PAGE_SIZE)
  {
    hide Translate;
    var m := SegmentMapping(memory, s);
    RoundedMapping(memory, s);
    OneMapping(f, m, s.vaddr);
  }

  /** A segment at 0x400010 with its bytes at 0x20 in the file starts sixteen bytes too early. */
  lemma IncongruentSegmentMisses(f: seq<Word>)
    requires |f| == PAGES
    ensures var s := Segment(0x400010, 0x20, 0x10, 5);
            Translate(SegmentMapping(0x1000000, s).On(f), s.vaddr) == 0x1000010 != 0x1000000 + s.offset
  {
    hide Translate, SegmentMapping, Mapping.On;
    var s := Segment(0x400010, 0x20, 0x10, 5);
    RoundedMapping(0x1000000, s);
    Quotient(s.vaddr, PAGE_SIZE, 0x400, 0x10);
    Quotient(0x1000000 + s.offset, PAGE_SIZE, 0x1000, 0x20);
    OneMapping(f, SegmentMapping(0x1000000, s), s.vaddr);
  }

  lemma RoundedMapping(memory: Word, s: Segment)
    requires s.memsz > 0
    requires memory + s.offset + s.memsz <= 0xfffff000 && s.vaddr + s.memsz <= 0xffffe000
    ensures var m := SegmentMapping(memory, s);
            && m.Accepted() && m.flags < PAGE_SIZE && m.virt + (m.physEnd - m.phys) <= WORD_LIMIT
            && m.Covers(s.vaddr)
            && m.virt == s.vaddr - s.vaddr % PAGE_SIZE
            && m.phys == memory + s.offset - (memory + s.offset) % PAGE_SIZE
  {
    MappingIs(memory, s);
    LowerPage(s.vaddr);
    LowerPage(memory + s.offset);
    hide SegmentMapping, AlignAddress, AlignToLowerPage;
    var m := SegmentMapping(memory, s);
    PageAbove(m.phys, m.physEnd);
  }

  lemma LowerPage(a: Word)
    ensures AlignToLowerPage(a) == a - a % PAGE_SIZE && 0 <= a % PAGE_SIZE < PAGE_SIZE
  {
  }

  lemma PageAbove(a: Word, b: Word)
    requires a % PAGE_SIZE == 0 && b % PAGE_SIZE == 0 && a < b
    ensures a + PAGE_SIZE <= b
  {
  }
}

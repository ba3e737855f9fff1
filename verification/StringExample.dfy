/** A heap with one free block left, and a task whose string runs into it. */
module StringExample {
  import opened Words
  import opened Arithmetic
  import opened HeapTable
  import opened KHeap
  import opened PageTables
  import opened Paging
  import opened AddressSpace
  import opened PoolBytes
  import opened StringCopies

  const SPACE := 0
  const FREE_BLOCK := 1027
  const TEMP_PAGE := HEAP_ADDRESS + FREE_BLOCK * PAGE_SIZE

  /** Blocks 0 to 1025 are an address space that maps every page to itself; block 1026 is full of
      "abcd", and block 1027, the free one, of "efgh". */
  function ExampleWord(k: nat): Word
    requires k < (FREE_BLOCK + 1) * ENTRIES
  {
    if k == 0 then HEAP_ADDRESS + PAGE_SIZE
    else if k < ENTRIES then 0
    else if k < 2 * ENTRIES then PageEntry(HEAP_ADDRESS / PAGE_SIZE + 2 + (k - ENTRIES), USER_FLAGS)
    else if k < 1026 * ENTRIES then PageEntry(k - 2 * ENTRIES, USER_FLAGS)
    else if k < FREE_BLOCK * ENTRIES then 0x64636261
    else 0x68676665
  }

  ghost function Memory(): (w: seq<Word>)
    ensures |w| == (FREE_BLOCK + 1) * ENTRIES
  {
    seq((FREE_BLOCK + 1) * ENTRIES, k requires 0 <= k < (FREE_BLOCK + 1) * ENTRIES => ExampleWord(k))
  }

  lemma TaggedWithSeven(p: nat)
    requires p < PAGES
    ensures PageEntry(p, USER_FLAGS) == p * PAGE_SIZE + Or(USER_FLAGS, 2)
  {
    assert Or(7, 2) == 7 by {
      assert Or(1, 0) == 1 && Or(3, 1) == 3;
    }
    hide Tag;
    Quotient(p, PAGES, 0, p);
    Quotient(p * PAGE_SIZE, PAGE_SIZE, p, 0);
  }

  lemma ExampleTable(i: nat)
    requires i < ENTRIES
    ensures EntryBuilt(Memory(), HEAP_ADDRESS, 1, i, i + 2, USER_FLAGS)
  {
    hide PageEntry, Mask;
    var w, b, p := Memory(), i + 2, HEAP_ADDRESS / PAGE_SIZE + 2 + i;
    assert BlockEntry(w, 1, i) == PageEntry(p, USER_FLAGS);
    TaggedWithSeven(p);
    EntryAddress(p, USER_FLAGS);
    forall k | 0 <= k < ENTRIES
      ensures BlockEntry(w, b, k) == PageEntry(i * ENTRIES + k, USER_FLAGS)
    {
      assert ExampleWord(b * ENTRIES + k) == PageEntry(i * ENTRIES + k, USER_FLAGS);
    }
  }

  /** It is an address space, of the first 1026 blocks, and every page is mapped to itself. */
  lemma ExampleSpace()
    ensures IsSpace(Memory(), HEAP_ADDRESS, SPACE) && DirectoryOf(Memory(), HEAP_ADDRESS, SPACE) == 1
    ensures forall b | b >= 1026 :: !InSpace(Memory(), HEAP_ADDRESS, SPACE, b)
    ensures IsIdentity(Map(Memory(), HEAP_ADDRESS, SPACE), USER_FLAGS)
  {
    hide EntryBuilt, IdentityTable, PageEntry;
    var w, tables := Memory(), seq(ENTRIES, i requires 0 <= i < ENTRIES => i + 2);
    assert w[0] == HEAP_ADDRESS + PAGE_SIZE;
    forall i | 0 <= i < ENTRIES
      ensures EntryBuilt(w, HEAP_ADDRESS, 1, i, tables[i], USER_FLAGS)
    {
      ExampleTable(i);
    }
    BuildingDone(w, HEAP_ADDRESS, 1, tables, USER_FLAGS);
    assert DirectoryOf(w, HEAP_ADDRESS, SPACE) == 1;
  }

  /** Byte i of the string that starts four bytes before the free block is at its own address. */
  lemma ExamplePlace(i: nat)
    requires i < 8
    ensures IsSpace(Memory(), HEAP_ADDRESS, SPACE) && TempIsIdentity(Memory(), HEAP_ADDRESS, SPACE, FREE_BLOCK)
    ensures Place(Map(Memory(), HEAP_ADDRESS, SPACE), TEMP_PAGE - 4, i) == TEMP_PAGE - 4 + i
  {
    hide IsSpace, Map, PageEntry;
    ExampleSpace();
    var v := TEMP_PAGE - 4 + i;
    EntryAddress(v / PAGE_SIZE, USER_FLAGS);
    EntryAddress(TEMP_PAGE / PAGE_SIZE, USER_FLAGS);
  }

  lemma ExampleBytes(i: nat)
    requires i < 8
    ensures PoolByte(Memory(), FREE_BLOCK * PAGE_SIZE - 4 + i) == 97 + i
  {
    var k := FREE_BLOCK * PAGE_SIZE - 4 + i;
    assert k / 4 == FREE_BLOCK * ENTRIES - 1 + i / 4 && k % 4 == i % 4;
    assert Memory()[k / 4] == if i < 4 then 0x64636261 else 0x68676665;
    hide GetByte;
    FirstCharacters();
    LastCharacters();
  }

  lemma FirstCharacters()
    ensures var w := 0x64636261;
            GetByte(w, 0) == 97 && GetByte(w, 1) == 98 && GetByte(w, 2) == 99 && GetByte(w, 3) == 100
  {
    assert GetByte(0x64636261, 1) == GetByte(0x646362, 0) == 98;
    assert GetByte(0x64636261, 2) == GetByte(0x646362, 1) == GetByte(0x6463, 0) == 99;
    assert GetByte(0x64636261, 3) == GetByte(0x646362, 2) == GetByte(0x6463, 1) == GetByte(0x64, 0) == 100;
  }

  lemma LastCharacters()
    ensures var w := 0x68676665;
            GetByte(w, 0) == 101 && GetByte(w, 1) == 102 && GetByte(w, 2) == 103 && GetByte(w, 3) == 104
  {
    assert GetByte(0x68676665, 1) == GetByte(0x686766, 0) == 102;
    assert GetByte(0x68676665, 2) == GetByte(0x686766, 1) == GetByte(0x6867, 0) == 103;
    assert GetByte(0x68676665, 3) == GetByte(0x686766, 2) == GetByte(0x6867, 1) == GetByte(0x68, 0) == 104;
  }

  /** The task sees "abcdefgh", and "abcdabcd" is delivered. */
  lemma StringIntoTempPageMisses(outside: Word -> Byte)
    ensures var w := Memory();
            && IsSpace(w, HEAP_ADDRESS, SPACE) && TempIsIdentity(w, HEAP_ADDRESS, SPACE, FREE_BLOCK)
            && Seen(w, HEAP_ADDRESS, outside, Map(w, HEAP_ADDRESS, SPACE), TEMP_PAGE - 4, 8)
            == [97, 98, 99, 100, 101, 102, 103, 104]
            && Delivered(w, HEAP_ADDRESS, SPACE, outside, FREE_BLOCK, TEMP_PAGE - 4, 8)
            == [97, 98, 99, 100, 97, 98, 99, 100]
  {
    hide IsSpace, InSpace, Map, Memory, Delivered, TempIsIdentity, Place, PoolByte;
    ExampleSpace();
    var w := Memory();
    ExamplePlace(0);
    var f := Map(w, HEAP_ADDRESS, SPACE);
    var s := Seen(w, HEAP_ADDRESS, outside, f, TEMP_PAGE - 4, 8);
    var r := Delivered(w, HEAP_ADDRESS, SPACE, outside, FREE_BLOCK, TEMP_PAGE - 4, 8);
    forall i | 0 <= i < 8
      ensures s[i] == 97 + i
    {
      ExamplePlace(i);
      ExampleBytes(i);
    }
    forall i | 0 <= i < 4
      ensures r[i] == s[i]
    {
      ExampleFirstHalf(outside, i);
    }
    StringBeforeTempPageRepeats(w, HEAP_ADDRESS, SPACE, outside, FREE_BLOCK, TEMP_PAGE - 4, 8, 4);
    assert 0 !in r[..4];
    assert r[4] == r[0] && r[5] == r[1] && r[6] == r[2] && r[7] == r[3];
  }

  lemma ExampleFirstHalf(outside: Word -> Byte, i: nat)
    requires i < 4 && IsSpace(Memory(), HEAP_ADDRESS, SPACE)
    ensures Delivered(Memory(), HEAP_ADDRESS, SPACE, outside, FREE_BLOCK, TEMP_PAGE - 4, 8)[i]
         == Seen(Memory(), HEAP_ADDRESS, outside, Map(Memory(), HEAP_ADDRESS, SPACE), TEMP_PAGE - 4, 8)[i]
  {
    hide IsSpace, InSpace, Map, Memory, TempIsIdentity, Place, PoolByte, Fetched, MemoryForCopy, MapForCopy, Spoilt;
    ExampleSpace();
    var w := Memory();
    var r := Fetched(MemoryForCopy(w, HEAP_ADDRESS, SPACE, FREE_BLOCK, 8), HEAP_ADDRESS, outside,
                     MapForCopy(w, HEAP_ADDRESS, SPACE, FREE_BLOCK), FREE_BLOCK, TEMP_PAGE - 4, 8);
    forall j | 0 <= j <= i
      ensures r[j] == Seen(w, HEAP_ADDRESS, outside, Map(w, HEAP_ADDRESS, SPACE), TEMP_PAGE - 4, 8)[j] == 97 + j
    {
      ExamplePlace(j);
      ExampleBytes(j);
      SamePlaces(w, HEAP_ADDRESS, SPACE, FREE_BLOCK, TEMP_PAGE - 4, j);
      ExampleUnspoilt(j);
      FetchedAsSeen(w, HEAP_ADDRESS, SPACE, outside, FREE_BLOCK, TEMP_PAGE - 4, 8, j);
    }
  }

  lemma ExampleUnspoilt(i: nat)
    requires i < 4 && IsSpace(Memory(), HEAP_ADDRESS, SPACE)
    ensures !Spoilt(Memory(), HEAP_ADDRESS, SPACE, FREE_BLOCK, 8, TEMP_PAGE - 4 + i)
  {
    hide IsSpace, Map, Memory, PoolByte;
    ExampleSpace();
    var w, p := Memory(), TEMP_PAGE / PAGE_SIZE;
    var d := DirectoryOf(w, HEAP_ADDRESS, SPACE);
    InTable(p);
    assert Slot(w, HEAP_ADDRESS, d, p) / ENTRIES < 1026;
  }

  lemma InTable(p: nat)
    requires p < PAGES && IsSpace(Memory(), HEAP_ADDRESS, SPACE)
    ensures IsDirectory(Memory(), HEAP_ADDRESS, DirectoryOf(Memory(), HEAP_ADDRESS, SPACE))
    ensures Slot(Memory(), HEAP_ADDRESS, DirectoryOf(Memory(), HEAP_ADDRESS, SPACE), p) / ENTRIES < 1026
  {
    hide IsDirectory, Memory;
    ExampleSpace();
    var w, d := Memory(), DirectoryOf(Memory(), HEAP_ADDRESS, SPACE);
    assert IsTable(w, HEAP_ADDRESS, d, TableBlock(w, HEAP_ADDRESS, d, p / ENTRIES));
    assert InSpace(w, HEAP_ADDRESS, SPACE, Slot(w, HEAP_ADDRESS, d, p) / ENTRIES);
  }
}

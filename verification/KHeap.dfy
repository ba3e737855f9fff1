/** The kernel heap of src/memory/heap/kheap.c: allocation with clearing. */
module KHeap {
  import opened Words
  import opened HeapTable
  import opened Heaps

  const HEAP_SIZE_BYTES := 104857600
  const HEAP_ADDRESS := 0x01000000
  const HEAP_BLOCKS := 25600

  /** The lowest k bytes of a word set to zero. */
  function ClearLow(w: Word, k: nat): (r: Word)
    requires k <= 4
    ensures forall j | 0 <= j < 4 :: GetByte(r, j) == if j < k then 0 else GetByte(w, j)
  {
    if k == 0 then w else SetByte(ClearLow(w, k - 1), k - 1, 0)
  }

  /** The words after clearing `size` bytes from the start of word `first`. */
  function ZeroBytes(w: seq<Word>, first: nat, size: nat): (r: seq<Word>)
    ensures |r| == |w|
    ensures forall j | 0 <= j < |w| ::
              r[j] == if first <= j < first + size / 4 then 0
                      else if j == first + size / 4 then ClearLow(w[j], size % 4)
                      else w[j]
  {
    seq(|w|, j requires 0 <= j < |w| =>
      if first <= j < first + size / 4 then 0
      else if j == first + size / 4 then ClearLow(w[j], size % 4)
      else w[j])
  }

  /** memset(ptr, 0, size) on memory from word `first` on */
  method ClearBytes(memory: array<Word>, first: nat, size: nat)
    requires first * 4 + size <= memory.Length * 4
    modifies memory
    ensures memory[..] == ZeroBytes(old(memory[..]), first, size)
  {
    ghost var w := memory[..];
    var i := 0;
    assert forall j | 0 <= j < |w| :: ClearLow(w[j], 0) == w[j];
    while i < size
      invariant 0 <= i <= size
      invariant memory[..] == ZeroBytes(w, first, i)
    {
      var j := first + i / 4;
      assert ClearLow(w[j], i % 4 + 1) == SetByte(ClearLow(w[j], i % 4), i % 4, 0);
      memory[j] := SetByte(memory[j], i % 4, 0);
      ZeroWord(ClearLow(w[j], 4));
      assert memory[..] == ZeroBytes(w, first, i + 1);
      i := i + 1;
    }
  }

  /** kheap_init */
  method Init(table: array<Entry>, memory: array<Word>) returns (heap: Heap)
    requires table.Length == HEAP_BLOCKS && memory.Length == HEAP_BLOCKS * 1024 && table as object != memory
    modifies table
    ensures fresh(heap) && heap.Valid() && heap.saddr == HEAP_ADDRESS && heap.live == map[]
    ensures heap.entries == table && heap.pool == memory
    ensures FreeCount(table[..]) == 25600 && heap.saddr == 0x01000000
  {
    var res: int;
    res, heap := Heap.Create(HEAP_ADDRESS, HEAP_ADDRESS + HEAP_SIZE_BYTES, table, memory);
    assert res == 0;
    NothingAllocated(|table[..]|);
    TableConserved(table[..], heap.live);
  }

  lemma {:induction false} NothingAllocated(k: nat)
    ensures LengthBelow(map[], k) == 0
  {
    if k > 0 {
      NothingAllocated(k - 1);
    }
  }

  /** kmalloc */
  method KMalloc(heap: Heap, size: Word) returns (ptr: Word)
    requires heap.Valid() && MallocSafe(heap.entries[..], Blocks(size))
    modifies heap.entries, heap`live
    ensures heap.Valid()
    ensures heap.Allocated(size, ptr, old(heap.entries[..]), old(heap.live), heap.entries[..], heap.live)
  {
    ptr := heap.Malloc(size);
  }

  /** kzalloc */
  method KZAlloc(heap: Heap, size: Word) returns (ptr: Word)
    requires heap.Valid() && size <= 0xfffff000 && MallocSafe(heap.entries[..], Blocks(size))
    modifies heap.entries, heap`live, heap.pool
    ensures heap.Valid()
    ensures heap.Allocated(size, ptr, old(heap.entries[..]), old(heap.live), heap.entries[..], heap.live)
    ensures heap.pool[..] == if ptr == 0 then old(heap.pool[..])
                             else ZeroBytes(old(heap.pool[..]), heap.Block(ptr) * 1024, size)
  {
    ptr := KMalloc(heap, size);
    if ptr == 0 {
      return;
    }
    ClearBytes(heap.pool, (ptr - heap.saddr) / 4, size);
  }

  /** kfree */
  method KFree(heap: Heap, ptr: Word)
    requires heap.Valid() && heap.saddr <= ptr && heap.Block(ptr) in heap.live
    modifies heap.entries, heap`live
    ensures heap.Valid()
    ensures heap.live == old(heap.live) - {heap.Block(ptr)}
  {
    heap.Free(ptr);
  }

  /** With a free block left, a one-block allocation succeeds and costs one block. */
  lemma OneBlock(heap: Heap, size: Word, ptr: Word, t: Table, m: Chains, t': Table, m': Chains)
    requires 0 < size <= BLOCK_SIZE && Represents(t, m) && FreeCount(t) > 0
    requires heap.Allocated(size, ptr, t, m, t', m')
    ensures Blocks(size) == 1
    ensures heap.saddr <= ptr == heap.Address(heap.Block(ptr))
    ensures heap.Block(ptr) !in m && m' == m[heap.Block(ptr) := 1]
    ensures FreeCount(t') == FreeCount(t) - 1
  {
    SingleBlockSafe(t);
    MarkCostsLength(t, m, heap.Block(ptr), 1);
  }
}

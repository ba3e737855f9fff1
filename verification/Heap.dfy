/** The block heap of src/memory/heap/heap.c over its byte table, with the memory
    behind `saddr` as an array of 32-bit words. */
module Heaps {
  import opened Words
  import opened HeapTable

  const BLOCK_SIZE := 4096
  const EINVARG := 2
  const ENOMEM := 3

  /** heap_align_value_to_upper, in 32-bit arithmetic: the last page wraps to zero. */
  function AlignValueToUpper(val: Word): (r: Word)
    ensures r % BLOCK_SIZE == 0
    ensures if val <= 0xfffff000 then val <= r < val + BLOCK_SIZE else r == 0
  {
    if val % BLOCK_SIZE == 0 then val
    else (val - val % BLOCK_SIZE + BLOCK_SIZE) % WORD_LIMIT
  }

  /** The number of blocks heap_malloc asks for. */
  function Blocks(size: Word): (n: nat)
    ensures 0 < size <= 0xfffff000 ==> 0 < n && (n - 1) * BLOCK_SIZE < size <= n * BLOCK_SIZE
  {
    AlignValueToUpper(size) / BLOCK_SIZE
  }

  /** What heap_get_start_block finds: the lowest fit if there is one; with no fit,
      -ENOMEM only if the last block is taken, else the trailing free run. */
  ghost predicate StartBlock(t: Table, n: nat, r: int) {
    if n > 0 && SomeFit(t, n) then LowestFit(t, r, n)
    else if LastTaken(t) then r == -ENOMEM
    else TrailingRun(t, r)
  }

  /** When a malloc of n blocks stays inside the table and touches free blocks only. */
  ghost predicate MallocSafe(t: Table, n: nat) {
    n == 0 || SomeFit(t, n) || LastTaken(t)
  }

  /** The start handed to heap_mark_blocks_taken is a run of n free blocks exactly
      under MallocSafe; otherwise the run is short and marking leaves the table. */
  lemma MarkingInsideIffSafe(t: Table, n: nat, r: int)
    requires n > 0 && StartBlock(t, n, r)
    ensures (r >= 0 ==> Fits(t, r, n)) <==> MallocSafe(t, n)
    ensures !MallocSafe(t, n) ==> 0 <= r < |t| < r + n
  {
    if !MallocSafe(t, n) {
      assert !Fits(t, r, n);
    }
  }

  /** Two blocks wanted, one left at the end: the answer is that one block. */
  lemma ShortTrailingRun()
    ensures var t: Table := [TAKEN | IS_FIRST, FREE];
            StartBlock(t, 2, 1) && !MallocSafe(t, 2)
  {
    var t: Table := [TAKEN | IS_FIRST, FREE];
    assert !IsFree(t[0]) && IsFree(t[1]);
    assert !Fits(t, 0, 2);
  }

  /** One block, or a full table end, is always safe to ask for. */
  lemma SingleBlockSafe(t: Table)
    ensures MallocSafe(t, 1)
    ensures SomeFit(t, 1) <==> FreeCount(t) > 0
  {
    if !LastTaken(t) {
      assert Fits(t, |t| - 1, 1);
    }
    if FreeCount(t) > 0 {
      FreeBlockExists(t, |t|);
    }
    if SomeFit(t, 1) {
      var s :| Fits(t, s, 1);
      assert IsFree(t[s]);
      FreeBelowPositive(t, s, |t|);
    }
  }

  lemma {:induction false} FreeBelowPositive(t: Table, s: nat, k: nat)
    requires s < k <= |t| && IsFree(t[s])
    ensures FreeBelow(t, k) > 0
  {
    if k > s + 1 {
      FreeBelowPositive(t, s, k - 1);
    }
  }

  lemma LowestFitUnique(t: Table, n: nat, a: int, b: int)
    requires LowestFit(t, a, n) && LowestFit(t, b, n)
    ensures a == b
  {
  }

  /** Where a safe request leads: to its lowest fit, or to nothing */
  lemma SafeStart(t: Table, n: nat, r: int)
    requires StartBlock(t, n, r) && MallocSafe(t, n)
    ensures r >= 0 ==> r + n <= |t|
    ensures n > 0 && r >= 0 ==> SomeFit(t, n) && Fits(t, r, n) && LowestFit(t, r, n)
    ensures r < 0 ==> (n == 0 || !SomeFit(t, n)) && LastTaken(t)
    ensures n == 0 && r >= 0 ==> !LastTaken(t) && TrailingRun(t, r)
  {
  }

  lemma MarkNothing(t: Table, start: nat)
    requires start <= |t|
    ensures Mark(t, start, 0) == t
  {
  }

  class Heap {
    // heap->table->entries; heap->table->total is its length
    const entries: array<Entry>
    // heap->saddr, and the memory there, word by word
    const saddr: nat
    const pool: array<Word>
    ghost var live: Chains

    ghost predicate Layout() {
      && saddr % BLOCK_SIZE == 0 && 0 < saddr
      && saddr + entries.Length * BLOCK_SIZE < WORD_LIMIT
      && pool.Length == entries.Length * 1024 && entries as object != pool
    }

    ghost predicate Valid()
      reads this, entries
    {
      Layout() && Represents(entries[..], live)
    }

    constructor (ptr: nat, table: array<Entry>, memory: array<Word>)
      ensures entries == table && saddr == ptr && pool == memory && live == map[]
    {
      entries, saddr, pool, live := table, ptr, memory, map[];
    }

    /** heap_create */
    static method Create(ptr: Word, end: Word, table: array<Entry>, memory: array<Word>)
      returns (res: int, heap: Heap)
      requires 0 < ptr && memory.Length == table.Length * 1024 && table as object != memory
      modifies table
      ensures res == if ptr % BLOCK_SIZE == 0 && end % BLOCK_SIZE == 0
                        && table.Length == (end - ptr) % WORD_LIMIT / BLOCK_SIZE
                     then 0 else -EINVARG
      ensures fresh(heap) && heap.entries == table && heap.pool == memory && heap.saddr == ptr
      ensures heap.live == map[]
      ensures res == 0 && ptr <= end ==> heap.Valid()
      ensures res == 0 ==> forall k | 0 <= k < table.Length :: table[k] == FREE
      ensures res < 0 ==> table[..] == old(table[..])
    {
      heap := new Heap(ptr, table, memory);
      if ptr % BLOCK_SIZE != 0 || end % BLOCK_SIZE != 0 {
        return -EINVARG, heap;
      }
      var tableSize := (end - ptr) % WORD_LIMIT;
      if table.Length != tableSize / BLOCK_SIZE {
        return -EINVARG, heap;
      }
      for i := 0 to table.Length
        invariant heap.live == map[]
        invariant forall k | 0 <= k < i :: table[k] == FREE
      {
        table[i] := FREE;
      }
      res := 0;
    }

    function Address(block: nat): nat {
      saddr + block * BLOCK_SIZE
    }

    function Block(address: nat): nat
      requires saddr <= address
    {
      (address - saddr) / BLOCK_SIZE
    }

    /** heap_get_start_block */
    method GetStartBlock(totalBlocks: nat) returns (r: int)
      ensures StartBlock(entries[..], totalBlocks, r)
    {
      ghost var t := entries[..];
      var bc, bs := 0, -1;
      var i := 0;
      while i < entries.Length
        invariant 0 <= i <= entries.Length
        invariant -1 <= bs < i && bc == (if bs == -1 then 0 else i - bs)
        invariant bs == -1 ==> i == 0 || !IsFree(t[i - 1])
        invariant bs >= 0 ==> (forall k | bs <= k < i :: IsFree(t[k])) && (bs == 0 || !IsFree(t[bs - 1]))
        invariant bs >= 0 && totalBlocks > 0 ==> bc < totalBlocks
        invariant totalBlocks > 0 ==> forall s | s + totalBlocks <= i :: !Fits(t, s, totalBlocks)
      {
        if !IsFree(entries[i]) {
          bc, bs := 0, -1;
          i := i + 1;
          continue;
        }
        if bs == -1 {
          bs := i;
        }
        bc := bc + 1;
        if bc == totalBlocks {
          assert Fits(t, bs, totalBlocks);
          break;
        }
        forall s | s + totalBlocks == i + 1 && totalBlocks > 0
          ensures !Fits(t, s, totalBlocks)
        {
          assert s < bs;
          assert bs > 0 ==> !IsFree(t[bs - 1]);
        }
        i := i + 1;
      }
      if bs == -1 {
        return -ENOMEM;
      }
      return bs;
    }

    /** heap_mark_blocks_taken */
    method MarkBlocksTaken(startBlock: nat, totalBlocks: nat)
      requires startBlock + totalBlocks <= entries.Length
      modifies entries
      ensures entries[..] == Mark(old(entries[..]), startBlock, totalBlocks)
    {
      var endBlock := startBlock + totalBlocks - 1;
      var entry := TAKEN | IS_FIRST;
      if totalBlocks > 1 {
        entry := entry | HAS_NEXT;
      }
      var i := startBlock;
      while i <= endBlock
        invariant startBlock <= i <= endBlock + 1
        invariant i <= endBlock ==> entry == ChainByte(i - startBlock, totalBlocks)
        invariant forall k | 0 <= k < entries.Length ::
                    entries[k] == if startBlock <= k < i then ChainByte(k - startBlock, totalBlocks)
                                  else old(entries[k])
      {
        entries[i] := entry;
        entry := TAKEN;
        if i != endBlock - 1 {
          entry := entry | HAS_NEXT;
        }
        i := i + 1;
      }
    }

    /** heap_mark_blocks_free */
    method MarkBlocksFree(startingBlock: nat)
      requires Represents(entries[..], live) && startingBlock in live
      modifies entries
      ensures entries[..] == Unmark(old(entries[..]), startingBlock, live[startingBlock])
    {
      ghost var t, n := entries[..], live[startingBlock];
      ChainMarks(t, startingBlock, n);
      var i := startingBlock;
      while i < entries.Length
        invariant startingBlock <= i < startingBlock + n <= entries.Length
        invariant forall k | 0 <= k < entries.Length ::
                    entries[k] == if startingBlock <= k < i then FREE else t[k]
      {
        var entry := entries[i];
        entries[i] := FREE;
        if entry & HAS_NEXT == 0 {
          break;
        }
        i := i + 1;
      }
    }

    /** What a malloc of `size` bytes returning `ptr` did to the table t and the chains m. */
    ghost predicate Allocated(size: Word, ptr: Word, t: Table, m: Chains, t': Table, m': Chains) {
      var n := Blocks(size);
      if n > 0 && SomeFit(t, n) then
        && saddr <= ptr && ptr == Address(Block(ptr))
        && LowestFit(t, Block(ptr), n)
        && t' == Mark(t, Block(ptr), n)
        && Block(ptr) !in m && m' == m[Block(ptr) := n]
      else
        && t' == t && m' == m
        && (LastTaken(t) ==> ptr == 0)
        && (!LastTaken(t) ==> saddr <= ptr && TrailingRun(t, Block(ptr)))
    }

    /** heap_malloc; a null pointer is 0. */
    method Malloc(size: Word) returns (ptr: Word)
      requires Valid() && MallocSafe(entries[..], Blocks(size))
      modifies entries, this`live
      ensures Valid()
      ensures Allocated(size, ptr, old(entries[..]), old(live), entries[..], live)
    {
      var totalBlocks := AlignValueToUpper(size) / BLOCK_SIZE;
      assert totalBlocks == Blocks(size);
      hide Represents, AlignValueToUpper, Blocks, StartBlock, LowestFit, SomeFit, TrailingRun, LastTaken, Mark;
      ghost var t, m := entries[..], live;
      var startBlock := GetStartBlock(totalBlocks);
      SafeStart(t, totalBlocks, startBlock);
      if startBlock < 0 {
        return 0;
      }
      ptr := saddr + startBlock * BLOCK_SIZE;
      assert Block(ptr) == startBlock;
      MarkBlocksTaken(startBlock, totalBlocks);
      if totalBlocks > 0 {
        MarkAddsChain(t, m, startBlock, totalBlocks);
        live := live[startBlock := totalBlocks];
      } else {
        MarkNothing(t, startBlock);
      }
    }

    /** heap_free */
    method Free(ptr: Word)
      requires Valid() && saddr <= ptr && Block(ptr) in live
      modifies entries, this`live
      ensures Valid()
      ensures live == old(live) - {Block(ptr)}
      ensures entries[..] == Unmark(old(entries[..]), Block(ptr), old(live)[Block(ptr)])
    {
      UnmarkRemovesChain(entries[..], live, Block(ptr));
      MarkBlocksFree((ptr - saddr) / BLOCK_SIZE);
      live := live - {Block(ptr)};
    }
  }

  /** A call of heap_malloc is a step of the table's runs ... */
  lemma MallocIsStep(heap: Heap, size: Word, ptr: Word, t: Table, m: Chains, t': Table, m': Chains)
    requires heap.Allocated(size, ptr, t, m, t', m')
    ensures Step(State(t, m), State(t', m'))
  {
    var n := Blocks(size);
    if n > 0 && SomeFit(t, n) {
      var b := heap.Block(ptr);
      assert LowestFit(t, b, n) && State(t', m') == State(Mark(t, b, n), m[b := n]);
    }
  }

  /** ... and so is a call of heap_free. */
  lemma FreeIsStep(t: Table, m: Chains, b: nat)
    requires Represents(t, m) && b in m
    ensures b + m[b] <= |t| && Step(State(t, m), State(Unmark(t, b, m[b]), m - {b}))
  {
    assert ChainAt(t, b, m[b]);
    assert State(Unmark(t, b, m[b]), m - {b}) == State(Unmark(t, b, m[b]), m - {b});
  }

  /** A call on the heap, and what it needs of its caller */
  datatype HeapCall = MallocCall(size: Word) | FreeCall(ptr: Word) {
    ghost predicate Allowed(heap: Heap, t: Table, m: Chains) {
      match this
      case MallocCall(size) => MallocSafe(t, Blocks(size))
      case FreeCall(ptr) => heap.saddr <= ptr && heap.Block(ptr) in m
    }
  }

  /** One call makes one step, and keeps the heap valid. */
  method Serve(heap: Heap, call: HeapCall)
    requires heap.Valid() && call.Allowed(heap, heap.entries[..], heap.live)
    modifies heap.entries, heap`live
    ensures heap.Valid()
    ensures Step(old(State(heap.entries[..], heap.live)), State(heap.entries[..], heap.live))
  {
    hide Represents, Step, LowestFit, TrailingRun, SomeFit;
    ghost var t, m := heap.entries[..], heap.live;
    match call {
      case MallocCall(size) =>
        var ptr := heap.Malloc(size);
        MallocIsStep(heap, size, ptr, t, m, heap.entries[..], heap.live);
      case FreeCall(ptr) =>
        FreeIsStep(t, m, heap.Block(ptr));
        heap.Free(ptr);
    }
  }
}

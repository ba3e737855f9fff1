/** The whole history of a kernel's processes: address spaces are built, processes run and end,
    address spaces are freed (src/task/task.c:203-235, src/task/process.c:61-138 and 290-306). */
module Histories {
  import opened Words
  import opened HeapTable
  import opened Heaps
  import opened PageTables
  import opened Paging
  import opened AddressSpace
  import opened Processes
  import opened Isolation
  import opened Sequences

  /** A process keeps its memory when its chains, and the words in its blocks, stay. */
  lemma BystanderKept(s: seq<Allocation>, live: Chains, live': Chains, w: seq<Word>, w': seq<Word>, base: nat, c: int)
    requires base > 0 && Agrees(s, live, w, base, c) && LiveWordsKept(w, w', live)
    requires forall b: nat | Owns(s, w, base, c, b) :: b in live' && live'[b] == live[b]
    ensures Agrees(s, live', w', base, c) && SameSpace(w, w', base, c) && SameMemory(s, base, c, live, w, live', w')
  {
    AgreesSpaceLive(s, live, w, base, c);
    hide IsSpace, InSpace, Map, Agrees, Owns, InSlot, HoldsAll, Mine, LiveWordsKept;
    SpaceBlocksKept(live, w, w', base, c);
    forall b: nat | InSpace(w, base, c, b) || InSlot(s, base + b * PAGE_SIZE)
      ensures b in live && b in live' && live'[b] == live[b]
    {
      OwnedByEither(s, w, base, c, b);
      OwnedLive(s, live, w, base, c, b);
    }
    AgreesParts(s, live, w, base, c);
    HeldInBoth(s, base, live, live', Map(w, base, c));
    MineInBoth(s, base, live, live');
    AgreesParts(s, live', w', base, c);
    MineKept(s, base, live, w, w');
  }

  lemma MineKept(s: seq<Allocation>, base: nat, live: Chains, w: seq<Word>, w': seq<Word>)
    requires LiveWordsKept(w, w', live)
    ensures LiveWordsKept(w, w', Mine(s, base, live))
  {
    hide InSlot;
    forall x | Covered(Mine(s, base, live), x)
      ensures Covered(live, x)
    {
      var b :| b in Mine(s, base, live) && b <= x < b + Mine(s, base, live)[b];
      assert b in live && b <= x < b + live[b];
    }
  }

  lemma SpaceBlocksKept(live: Chains, w: seq<Word>, w': seq<Word>, base: nat, c: int)
    requires IsSpace(w, base, c) && SpaceLive(w, base, c, live) && LiveWordsKept(w, w', live)
    ensures IsSpace(w', base, c) && Map(w', base, c) == Map(w, base, c) && SameSpace(w, w', base, c)
  {
    hide IsSpace, Map;
    forall k | 0 <= k < |w| && InSpace(w, base, c, k / ENTRIES)
      ensures w'[k] == w[k]
    {
      var b: nat := k / ENTRIES;
      assert b in live && live[b] == 1;
      assert Covered(live, b);
    }
    SpaceKept(w, w', base, c);
  }

  // ------------------------------------------------------------- chains that are nobody's

  /** The blocks of the processes' paging structs */
  ghost function SpaceBlocks(ps: seq<Process>): (r: seq<int>)
    ensures |r| == |ps| && forall i | 0 <= i < |ps| :: r[i] == (ps[i].chunk - ps[i].heap.saddr) / PAGE_SIZE
  {
    seq(|ps|, i requires 0 <= i < |ps| => (ps[i].chunk - ps[i].heap.saddr) / PAGE_SIZE)
  }

  ghost predicate InSomeSpace(cs: seq<int>, w: seq<Word>, base: nat, b: int) {
    exists i :: 0 <= i < |cs| && IsSpace(w, base, cs[i]) && InSpace(w, base, cs[i], b)
  }

  /** Chains that no slot refers to and that are in no process's address space */
  ghost function Unowned(tables: seq<seq<Allocation>>, cs: seq<int>, w: seq<Word>, base: nat, live: Chains): Chains {
    map b | b in live && InNoSlot(tables, base + b * PAGE_SIZE) && !InSomeSpace(cs, w, base, b) :: live[b]
  }

  ghost predicate SpacesSame(cs: seq<int>, w: seq<Word>, w': seq<Word>, base: nat) {
    forall i | 0 <= i < |cs| :: IsSpace(w, base, cs[i]) && SameSpace(w, w', base, cs[i])
  }

  lemma SomeSpaceSame(cs: seq<int>, w: seq<Word>, w': seq<Word>, base: nat, b: int)
    requires SpacesSame(cs, w, w', base)
    ensures InSomeSpace(cs, w', base, b) <==> InSomeSpace(cs, w, base, b)
  {
    hide IsSpace, InSpace;
  }

  lemma UnownedAfterStep(tables: seq<seq<Allocation>>, tables': seq<seq<Allocation>>, cs: seq<int>, w: seq<Word>,
                         w': seq<Word>, base: nat, live: Chains, live': Chains)
    requires SpacesSame(cs, w, w', base) && Unclaimed(tables', base, live') == Unclaimed(tables, base, live)
    ensures Unowned(tables', cs, w', base, live') == Unowned(tables, cs, w, base, live)
  {
    hide InSomeSpace, SpacesSame, InNoSlot;
    forall b
      ensures b in Unowned(tables', cs, w', base, live') <==> b in Unowned(tables, cs, w, base, live)
      ensures b in Unowned(tables, cs, w, base, live) ==> b in live' && live'[b] == live[b]
    {
      SomeSpaceSame(cs, w, w', base, b);
      assert b in Unclaimed(tables', base, live') <==> b in Unclaimed(tables, base, live);
      if b in Unclaimed(tables, base, live) {
        assert Unclaimed(tables', base, live')[b] == Unclaimed(tables, base, live)[b];
      }
    }
  }

  /** One process more, without allocations: its address space is all that is added. */
  lemma UnownedAfterSpawn(tables: seq<seq<Allocation>>, s: seq<Allocation>, cs: seq<int>, c: int, w: seq<Word>,
                          w': seq<Word>, base: nat, live: Chains, live': Chains)
    requires base > 0 && NoSlots(s) && SpacesSame(cs, w, w', base)
    requires IsSpace(w', base, c) && AddsSpace(live, live', w', base, c)
    ensures Unowned(tables + [s], cs + [c], w', base, live') == Unowned(tables, cs, w, base, live)
  {
    hide IsSpace, InSpace, InNoSlot, InSomeSpace, SpacesSame;
    forall b: nat | b in live || b in live'
      ensures b in Unowned(tables + [s], cs + [c], w', base, live') <==> b in Unowned(tables, cs, w, base, live)
      ensures b in Unowned(tables, cs, w, base, live) ==> b in live' && live'[b] == live[b]
    {
      SomeSpaceSame(cs, w, w', base, b);
      OneMoreSpace(cs, c, w', base, b);
      OneMoreTable(tables, s, base + b * PAGE_SIZE);
    }
  }

  lemma OneMoreSpace(cs: seq<int>, c: int, w: seq<Word>, base: nat, b: int)
    requires IsSpace(w, base, c)
    ensures InSomeSpace(cs + [c], w, base, b) <==> InSomeSpace(cs, w, base, b) || InSpace(w, base, c, b)
  {
    hide IsSpace, InSpace;
    var cs' := cs + [c];
    if InSomeSpace(cs, w, base, b) {
      var i :| 0 <= i < |cs| && IsSpace(w, base, cs[i]) && InSpace(w, base, cs[i], b);
      assert cs'[i] == cs[i];
    }
    assert cs'[|cs|] == c;
  }

  lemma OneMoreTable(tables: seq<seq<Allocation>>, s: seq<Allocation>, ptr: int)
    requires NoSlots(s) && ptr != 0
    ensures InNoSlot(tables + [s], ptr) <==> InNoSlot(tables, ptr)
  {
    var tables' := tables + [s];
    if InNoSlot(tables', ptr) {
      forall i | 0 <= i < |tables|
        ensures !InSlot(tables[i], ptr)
      {
        assert tables'[i] == tables[i];
      }
    }
  }

  /** The heap's chains that belong to none of the processes */
  ghost function Rest(heap: Heap, ps: seq<Process>): Chains
    reads heap, heap.pool, set i | 0 <= i < |ps| :: ps[i].allocations
  {
    Unowned(Tables(ps), SpaceBlocks(ps), heap.pool[..], heap.saddr, heap.live)
  }

  /** A new address space and a process with an empty allocation table */
  method Create(heap: Heap, flags: Word) returns (p: Process)
    requires heap.Valid() && flags < 256 && FreeCount(heap.entries[..]) >= SPACE_BLOCKS
    modifies heap.entries, heap`live, heap.pool
    ensures fresh(p) && fresh(p.allocations) && p.heap == heap && p.Valid() && NoSlots(p.allocations[..])
    ensures SpaceAt(heap, p.chunk) && IsIdentity(SpaceMap(heap, p.chunk), flags)
    ensures AddsSpace(old(heap.live), heap.live, heap.pool[..], heap.saddr, heap.Block(p.chunk))
    ensures LiveWordsKept(old(heap.pool[..]), heap.pool[..], old(heap.live))
  {
    hide IsSpace, Agrees, Represents, AddsSpace, LiveWordsKept, IsIdentity, FreeCount, NoSlots;
    ghost var m := heap.live;
    var table := new Allocation[MAX_PROGRAM_ALLOCATIONS](_ => NONE);
    AllNone(table[..]);
    var chunk := New4Gb(heap, flags);
    FreshProcess(table[..], m, heap.live, heap.pool[..], heap.saddr, heap.Block(chunk));
    p := new Process(heap, chunk, table);
  }

  /** It is apart from the others, and they are untouched. */
  method Spawn(heap: Heap, ps: seq<Process>, flags: Word) returns (p: Process)
    requires Together(heap, ps) && flags < 256 && FreeCount(heap.entries[..]) >= SPACE_BLOCKS
    modifies heap.entries, heap`live, heap.pool
    ensures fresh(p) && fresh(p.allocations) && NoSlots(p.allocations[..])
    ensures Together(heap, ps + [p])
    ensures forall i | 0 <= i < |ps| :: Untouched(ps[i], ps[i].allocations[..], old(heap.live), old(heap.pool[..]))
    ensures Rest(heap, ps + [p]) == old(Rest(heap, ps))
  {
    hide IsSpace, InSpace, Agrees, Represents, SameMemory, Unowned, Apart, Tables, SpaceBlocks, AddsSpace, SameSpace,
         LiveWordsKept, IsIdentity, FreeCount, NoSlots;
    ghost var m, w, base := heap.live, heap.pool[..], heap.saddr;
    ghost var tables, cs := Tables(ps), SpaceBlocks(ps);
    p := Create(heap, flags);
    ghost var m', w', c, s := heap.live, heap.pool[..], heap.Block(p.chunk), p.allocations[..];
    forall i | 0 <= i < |ps|
      ensures Untouched(ps[i], ps[i].allocations[..], m, w) && Distinct(heap, p, ps[i])
      ensures IsSpace(w, base, heap.Block(ps[i].chunk)) && SameSpace(w, w', base, heap.Block(ps[i].chunk))
    {
      OlderProcess(ps[i].allocations[..], s, m, m', w, w', base, heap.Block(ps[i].chunk), c);
    }
    forall i, j | 0 <= i < |ps| && 0 <= j < |ps| && i != j
      ensures Distinct(heap, ps[i], ps[j])
    {
      assert old(Distinct(heap, ps[i], ps[j]));
      ApartKept(ps[i].allocations[..], heap.Block(ps[i].chunk), ps[j].allocations[..], heap.Block(ps[j].chunk),
                w, w', base);
    }
    JoinedTogether(heap, ps, p);
    SpacesAllSame(ps, w, w', base);
    UnownedAfterSpawn(tables, s, cs, c, w, w', base, m, m');
    SpaceBlocksMore(ps, p);
  }

  lemma AllNone(s: seq<Allocation>)
    requires forall i | 0 <= i < |s| :: s[i] == NONE
    ensures NoSlots(s)
  {
  }

  /** One more process that is apart from all others */
  lemma JoinedTogether(heap: Heap, ps: seq<Process>, p: Process)
    requires heap.Valid() && p.heap == heap && p.Valid()
    requires forall i | 0 <= i < |ps| :: ps[i].heap == heap && ps[i].Valid() && Distinct(heap, p, ps[i])
    requires forall i, j | 0 <= i < |ps| && 0 <= j < |ps| && i != j :: Distinct(heap, ps[i], ps[j])
    ensures Together(heap, ps + [p])
    ensures Tables(ps + [p]) == Tables(ps) + [p.allocations[..]]
  {
    hide Process.Valid, Heap.Valid, Apart;
    var qs := ps + [p];
    forall i, j | 0 <= i < |qs| && 0 <= j < |qs| && i != j
      ensures Distinct(heap, qs[i], qs[j])
    {
      if j == |ps| {
        DistinctSymmetric(heap, p, qs[i]);
      }
    }
  }

  lemma DistinctSymmetric(heap: Heap, p: Process, q: Process)
    requires p.Valid() && q.Valid() && p.heap == heap && q.heap == heap && Distinct(heap, p, q)
    ensures Distinct(heap, q, p)
  {
    hide Apart;
    ApartSymmetric(p.allocations[..], heap.Block(p.chunk), q.allocations[..], heap.Block(q.chunk),
                   heap.pool[..], heap.saddr);
  }

  lemma SpaceBlocksMore(ps: seq<Process>, p: Process)
    ensures SpaceBlocks(ps + [p]) == SpaceBlocks(ps) + [(p.chunk - p.heap.saddr) / PAGE_SIZE]
  {
  }

  lemma SpacesAllSame(ps: seq<Process>, w: seq<Word>, w': seq<Word>, base: nat)
    requires forall i | 0 <= i < |ps| ::
               ps[i].heap.saddr == base <= ps[i].chunk && IsSpace(w, base, ps[i].heap.Block(ps[i].chunk))
               && SameSpace(w, w', base, ps[i].heap.Block(ps[i].chunk))
    ensures SpacesSame(SpaceBlocks(ps), w, w', base)
  {
    hide IsSpace, SameSpace;
  }

  lemma OlderProcess(s: seq<Allocation>, empty: seq<Allocation>, live: Chains, live': Chains, w: seq<Word>,
                     w': seq<Word>, base: nat, c: int, c': int)
    requires base > 0 && Agrees(s, live, w, base, c) && LiveWordsKept(w, w', live)
    requires IsSpace(w', base, c') && AddsSpace(live, live', w', base, c') && NoSlots(empty)
    ensures IsSpace(w, base, c) && SameSpace(w, w', base, c) && Agrees(s, live', w', base, c)
    ensures SameMemory(s, base, c, live, w, live', w') && Apart(empty, c', s, c, w', base)
  {
    AgreesSpaceLive(s, live, w, base, c);
    hide IsSpace, InSpace, Agrees, InSlot, LiveWordsKept;
    forall b: nat | Owns(s, w, base, c, b)
      ensures b in live && b in live' && live'[b] == live[b] && !InSpace(w', base, c', b)
    {
      OwnedLive(s, live, w, base, c, b);
    }
    BystanderKept(s, live, live', w, w', base, c);
    forall b: nat
      ensures !(Owns(empty, w', base, c', b) && Owns(s, w', base, c, b))
    {
      EmptySlots(empty, base + b * PAGE_SIZE);
      assert Owns(s, w', base, c, b) <==> Owns(s, w, base, c, b);
    }
  }

  lemma EmptySlots(s: seq<Allocation>, ptr: int)
    requires NoSlots(s) && ptr != 0
    ensures !InSlot(s, ptr)
  {
  }

  // ------------------------------------------------------------- the end of a process

  lemma SpaceFreed(s: seq<Allocation>, live: Chains, live': Chains, w: seq<Word>, base: nat, c: int,
                   gone: seq<Allocation>, c': int)
    requires base > 0 && Agrees(s, live, w, base, c) && IsSpace(w, base, c') && Apart(gone, c', s, c, w, base)
    requires AddsSpace(live', live, w, base, c')
    ensures Agrees(s, live', w, base, c)
  {
    AgreesSpaceLive(s, live, w, base, c);
    hide IsSpace, InSpace, Agrees, InSlot;
    forall b: nat | Owns(s, w, base, c, b)
      ensures b in live' && live'[b] == live[b]
    {
      OwnedLive(s, live, w, base, c, b);
      assert !Owns(gone, w, base, c', b);
    }
    BystanderKept(s, live, live', w, w, base, c);
  }

  lemma UnownedAfterRelease(tables: seq<seq<Allocation>>, cs: seq<int>, k: nat, w: seq<Word>, base: nat,
                            live: Chains, live': Chains)
    requires base > 0 && k < |tables| == |cs| && NoSlots(tables[k])
    requires IsSpace(w, base, cs[k]) && AddsSpace(live', live, w, base, cs[k])
    ensures Unowned(Without(tables, k), Without(cs, k), w, base, live') == Unowned(tables, cs, w, base, live)
  {
    hide IsSpace, InSpace, InNoSlot, InSomeSpace, NoSlots;
    forall b: nat | b in live || b in live'
      ensures b in Unowned(Without(tables, k), Without(cs, k), w, base, live')
              <==> b in Unowned(tables, cs, w, base, live)
      ensures b in Unowned(tables, cs, w, base, live) ==> b in live' && live'[b] == live[b]
    {
      OneLessSpace(cs, k, w, base, b);
      OneLessTable(tables, k, base + b * PAGE_SIZE);
    }
  }

  lemma OneLessSpace(cs: seq<int>, k: nat, w: seq<Word>, base: nat, b: int)
    requires k < |cs| && IsSpace(w, base, cs[k])
    ensures InSomeSpace(cs, w, base, b) <==> InSomeSpace(Without(cs, k), w, base, b) || InSpace(w, base, cs[k], b)
  {
    hide IsSpace, InSpace;
    var cs' := Without(cs, k);
    if InSomeSpace(cs, w, base, b) {
      var i :| 0 <= i < |cs| && IsSpace(w, base, cs[i]) && InSpace(w, base, cs[i], b);
      if i < k {
        assert cs'[i] == cs[i];
      } else if i > k {
        assert cs'[i - 1] == cs[i];
      }
    }
  }

  lemma OneLessTable(tables: seq<seq<Allocation>>, k: nat, ptr: int)
    requires k < |tables| && NoSlots(tables[k]) && ptr != 0
    ensures InNoSlot(tables, ptr) <==> InNoSlot(Without(tables, k), ptr)
  {
    var tables' := Without(tables, k);
    if InNoSlot(tables', ptr) {
      forall i | 0 <= i < |tables|
        ensures !InSlot(tables[i], ptr)
      {
        if i < k {
          assert tables'[i] == tables[i];
        } else if i > k {
          assert tables'[i - 1] == tables[i];
        }
      }
    }
  }

  /** The address space of a process without allocations is freed. */
  method Release(heap: Heap, ps: seq<Process>, k: nat)
    requires Together(heap, ps) && k < |ps| && NoSlots(ps[k].allocations[..])
    modifies heap.entries, heap`live
    ensures Together(heap, Without(ps, k))
    ensures Rest(heap, Without(ps, k)) == old(Rest(heap, ps))
  {
    hide IsSpace, InSpace, Agrees, Represents, Unowned, Apart, Tables, SpaceBlocks, AddsSpace, SpaceLive, NoSlots;
    var p := ps[k];
    ghost var m, w, base, c := heap.live, heap.pool[..], heap.saddr, heap.Block(p.chunk);
    AgreesSpaceLive(p.allocations[..], m, w, base, c);
    Free4Gb(heap, p.chunk);
    forall i | 0 <= i < |ps| && i != k
      ensures ps[i].Valid()
    {
      assert old(Distinct(heap, p, ps[i]));
      SpaceFreed(ps[i].allocations[..], m, heap.live, w, base, heap.Block(ps[i].chunk), p.allocations[..], c);
    }
    forall i, j | 0 <= i < |ps| && 0 <= j < |ps| && i != j && i != k && j != k
      ensures Distinct(heap, ps[i], ps[j])
    {
      assert old(Distinct(heap, ps[i], ps[j]));
    }
    UnownedAfterRelease(Tables(ps), SpaceBlocks(ps), k, w, base, m, heap.live);
    PartsWithout(ps, k);
  }

  lemma PartsWithout(ps: seq<Process>, k: nat)
    requires k < |ps|
    ensures Tables(Without(ps, k)) == Without(Tables(ps), k)
    ensures SpaceBlocks(Without(ps, k)) == Without(SpaceBlocks(ps), k)
  {
    hide Tables, SpaceBlocks;
    var qs := Without(ps, k);
    forall i | 0 <= i < |qs|
      ensures Tables(qs)[i] == Without(Tables(ps), k)[i] && SpaceBlocks(qs)[i] == Without(SpaceBlocks(ps), k)[i]
    {
      assert qs[i] == if i < k then ps[i] else ps[i + 1];
    }
  }

  // ------------------------------------------------------------- histories

  /** A process comes, calls the kernel, or ends with all it has. */
  datatype Change = Comes(flags: Word) | Calls(who: nat, op: MemOp) | Ends(who: nat)

  /** Any history of processes, from a heap in any state: all are valid and apart at its end, and
      what does not belong to one of them is what was in use at the beginning. When none is left,
      every byte of the heap table is as it was. */
  method History(heap: Heap, changes: seq<Change>) returns (ps: seq<Process>)
    requires heap.Valid()
    modifies heap.entries, heap`live, heap.pool
    ensures Together(heap, ps)
    ensures Rest(heap, ps) == old(heap.live)
    ensures |ps| == 0 ==> heap.live == old(heap.live) && heap.entries[..] == old(heap.entries[..])
  {
    hide Represents, Rest, Distinct, Untouched, SameSpace, FreeCount, Unclaimed, NoSlots, Process.Valid;
    ghost var t, m := heap.entries[..], heap.live;
    ps := [];
    NoProcesses(heap);
    for n := 0 to |changes|
      invariant Together(heap, ps) && forall i | 0 <= i < |ps| :: fresh(ps[i].allocations)
      invariant Rest(heap, ps) == m
    {
      ps := Changed(heap, ps, changes[n]);
    }
    if |ps| == 0 {
      NoProcesses(heap);
      assert ps == [];
      TableUnique(t, heap.entries[..], m);
    }
  }

  lemma NoProcesses(heap: Heap)
    ensures Rest(heap, []) == heap.live
  {
  }

  /** One change; a process that does not exist does nothing, and none comes that does not fit. */
  method Changed(heap: Heap, ps: seq<Process>, change: Change) returns (qs: seq<Process>)
    requires Together(heap, ps)
    modifies heap.entries, heap`live, heap.pool, set i | 0 <= i < |ps| :: ps[i].allocations
    ensures Together(heap, qs)
    ensures forall i | 0 <= i < |qs| :: qs[i] in ps || fresh(qs[i].allocations)
    ensures Rest(heap, qs) == old(Rest(heap, ps))
  {
    hide IsSpace, SameSpace, Represents, Rest, Distinct, Untouched, FreeCount, Unclaimed, NoSlots, Agrees, Without;
    qs := ps;
    match change {
      case Comes(flags) =>
        if flags < 256 && FreeCount(heap.entries[..]) >= SPACE_BLOCKS {
          var p := Spawn(heap, ps, flags);
          qs := ps + [p];
        }
      case Calls(who, op) =>
        if who < |ps| {
          Steps(heap, ps, Asks(who, op));
        }
      case Ends(who) =>
        if who < |ps| {
          Steps(heap, ps, Exits(who));
          Release(heap, ps, who);
          qs := Without(ps, who);
          NothingNew(ps, who);
        }
    }
  }

  method Steps(heap: Heap, ps: seq<Process>, e: Event)
    requires Together(heap, ps) && e.who < |ps|
    modifies heap.entries, heap`live, heap.pool, ps[e.who].allocations
    ensures Together(heap, ps) && (e.Exits? ==> NoSlots(ps[e.who].allocations[..]))
    ensures Rest(heap, ps) == old(Rest(heap, ps))
  {
    hide IsSpace, SameSpace, Represents, Unowned, Distinct, Untouched, Unclaimed, NoSlots, Agrees, Tables, SpaceBlocks;
    ghost var m, w, tables := heap.live, heap.pool[..], Tables(ps);
    forall i | 0 <= i < |ps|
      ensures IsSpace(w, heap.saddr, heap.Block(ps[i].chunk))
    {
      AgreesSpaceLive(ps[i].allocations[..], m, w, heap.saddr, heap.Block(ps[i].chunk));
    }
    Isolation.Step(heap, ps, e);
    SpacesAllSame(ps, w, heap.pool[..], heap.saddr);
    UnownedAfterStep(tables, Tables(ps), SpaceBlocks(ps), w, heap.pool[..], heap.saddr, m, heap.live);
  }
}

/** Several processes on one heap: what one of them allocates and frees (src/task/process.c:61-91
    and 290-306) does not reach the others. */
module Isolation {
  import opened Words
  import opened HeapTable
  import opened Heaps
  import opened PageTables
  import opened Paging
  import opened AddressSpace
  import opened Processes

  /** The chains the slots refer to */
  ghost function Mine(s: seq<Allocation>, base: nat, live: Chains): Chains {
    map b | b in live && InSlot(s, base + b * PAGE_SIZE) :: live[b]
  }

  /** Block b is the head of an allocation, or belongs to the address space in block c. */
  ghost predicate Owns(s: seq<Allocation>, w: seq<Word>, base: nat, c: int, b: nat)
    requires IsSpace(w, base, c)
  {
    InSpace(w, base, c, b) || InSlot(s, base + b * PAGE_SIZE)
  }

  ghost predicate Apart(s: seq<Allocation>, c: int, s': seq<Allocation>, c': int, w: seq<Word>, base: nat)
    requires IsSpace(w, base, c) && IsSpace(w, base, c')
  {
    forall b: nat :: !(Owns(s, w, base, c, b) && Owns(s', w, base, c', b))
  }

  lemma OwnedLive(s: seq<Allocation>, live: Chains, w: seq<Word>, base: nat, c: int, b: nat)
    requires base > 0 && Agrees(s, live, w, base, c) && Owns(s, w, base, c, b)
    ensures b in live
  {
    hide IsSpace, InSpace, Map, Identity;
    if InSlot(s, base + b * PAGE_SIZE) {
      var i :| 0 <= i < |s| && s[i].ptr == base + b * PAGE_SIZE;
      assert Holds(s[i], base, live, Map(w, base, c));
    }
  }

  /** A block of a space is in the chain of nobody else's allocation. */
  lemma SpaceInNoChain(t: Table, s: seq<Allocation>, live: Chains, w: seq<Word>, base: nat, c: int,
                       s': seq<Allocation>, c': int, x: int)
    requires Represents(t, live) && base > 0 && x >= 0
    requires IsSpace(w, base, c) && SpaceLive(w, base, c, live) && IsSpace(w, base, c')
    requires Apart(s, c, s', c', w, base) && InSpace(w, base, c, x)
    ensures !Covered(Mine(s', base, live), x)
  {
    hide IsSpace, InSpace, Represents, InSlot;
    if Covered(Mine(s', base, live), x) {
      var b :| b in Mine(s', base, live) && b <= x < b + Mine(s', base, live)[b];
      assert Owns(s, w, base, c, x) && Owns(s', w, base, c', b);
      if b < x {
        ChainsDisjoint(t, live, b, x);
      }
    }
  }

  lemma MineForeign(s: seq<Allocation>, s': seq<Allocation>, live: Chains, w: seq<Word>, base: nat, c: int, c': int,
                    x: int)
    requires IsSpace(w, base, c) && IsSpace(w, base, c') && Apart(s, c, s', c', w, base)
    requires Covered(Mine(s', base, live), x)
    ensures Covered(Foreign(s, base, live), x)
  {
    hide IsSpace, InSpace, InSlot;
    var b :| b in Mine(s', base, live) && b <= x < b + Mine(s', base, live)[b];
    assert Owns(s', w, base, c', b);
    assert b in Foreign(s, base, live) && Foreign(s, base, live)[b] == live[b];
  }

  lemma SpaceForeign(s: seq<Allocation>, s': seq<Allocation>, live: Chains, w: seq<Word>, base: nat, c: int, c': int,
                     x: nat)
    requires IsSpace(w, base, c) && IsSpace(w, base, c') && Apart(s, c, s', c', w, base)
    requires SpaceLive(w, base, c', live) && InSpace(w, base, c', x)
    ensures Covered(Foreign(s, base, live), x) && !InSpace(w, base, c, x)
  {
    hide IsSpace, InSpace, InSlot;
    assert Owns(s', w, base, c', x);
    assert x in Foreign(s, base, live) && Foreign(s, base, live)[x] == 1;
  }

  /** A call of the process with slots s1 (s2 afterwards) and space c keeps the words of another
      process's space and allocations. */
  lemma OtherWordsKept(t: Table, s1: seq<Allocation>, live: Chains, w: seq<Word>, w': seq<Word>, base: nat, c: int,
                       s: seq<Allocation>, c': int)
    requires Represents(t, live) && base > 0 && IsSpace(w, base, c) && SpaceLive(w, base, c, live)
    requires IsSpace(w, base, c') && SpaceLive(w, base, c', live) && Apart(s1, c, s, c', w, base)
    requires Undisturbed(w, w', Foreign(s1, base, live), base, c)
    ensures LiveWordsKept(w, w', Mine(s, base, live))
    ensures SameSpace(w, w', base, c') && IsSpace(w', base, c') && Map(w', base, c') == Map(w, base, c')
  {
    hide IsSpace, InSpace, Represents, Covered, Foreign, Mine, Apart, SpaceLive, Map;
    forall k | 0 <= k < |w| && Covered(Mine(s, base, live), k / ENTRIES)
      ensures w'[k] == w[k]
    {
      MineForeign(s1, s, live, w, base, c, c', k / ENTRIES);
      if InSpace(w, base, c, k / ENTRIES) {
        SpaceInNoChain(t, s1, live, w, base, c, s, c', k / ENTRIES);
      }
    }
    forall k | 0 <= k < |w| && InSpace(w, base, c', k / ENTRIES)
      ensures w'[k] == w[k]
    {
      SpaceForeign(s1, s, live, w, base, c, c', k / ENTRIES);
    }
    SpaceKept(w, w', base, c');
  }

  lemma OwnedForeign(s1: seq<Allocation>, s2: seq<Allocation>, live: Chains, live': Chains, w: seq<Word>, base: nat,
                     c: int, s: seq<Allocation>, c': int, b: nat)
    requires base > 0 && IsSpace(w, base, c) && Agrees(s, live, w, base, c') && Owns(s, w, base, c', b)
    requires Apart(s1, c, s, c', w, base) && Foreign(s2, base, live') == Foreign(s1, base, live)
    ensures b in live && b in live' && live'[b] == live[b] && !InSlot(s2, base + b * PAGE_SIZE)
  {
    hide IsSpace, InSpace, Map, HoldsAll, SpaceLive, InSlot;
    OwnedLive(s, live, w, base, c', b);
    assert !Owns(s1, w, base, c, b);
    assert b in Foreign(s1, base, live) && b in Foreign(s2, base, live');
    assert Foreign(s1, base, live)[b] == live[b] && Foreign(s2, base, live')[b] == live'[b];
  }

  /** The chains of its slots and its space are the same. */
  lemma OtherChainsKept(s1: seq<Allocation>, s2: seq<Allocation>, live: Chains, live': Chains, w: seq<Word>, base: nat,
                        c: int, s: seq<Allocation>, c': int)
    requires base > 0 && IsSpace(w, base, c) && Agrees(s, live, w, base, c')
    requires Apart(s1, c, s, c', w, base) && Foreign(s2, base, live') == Foreign(s1, base, live)
    ensures Mine(s, base, live') == Mine(s, base, live) && SpaceLive(w, base, c', live')
    ensures HoldsAll(s, base, live', Map(w, base, c'))
  {
    AgreesSpaceLive(s, live, w, base, c');
    hide IsSpace, InSpace, Map, Foreign, Apart, Agrees, Owns, InSlot, HoldsAll, Mine;
    forall b: nat | InSpace(w, base, c', b) || InSlot(s, base + b * PAGE_SIZE)
      ensures b in live && b in live' && live'[b] == live[b]
    {
      OwnedByEither(s, w, base, c', b);
      OwnedForeign(s1, s2, live, live', w, base, c, s, c', b);
    }
    AgreesParts(s, live, w, base, c');
    HeldInBoth(s, base, live, live', Map(w, base, c'));
    MineInBoth(s, base, live, live');
  }

  lemma MineInBoth(s: seq<Allocation>, base: nat, live: Chains, live': Chains)
    requires forall b: nat | InSlot(s, base + b * PAGE_SIZE) :: b in live && b in live' && live'[b] == live[b]
    ensures Mine(s, base, live') == Mine(s, base, live)
  {
    hide InSlot;
  }

  lemma HeldInBoth(s: seq<Allocation>, base: nat, live: Chains, live': Chains, f: seq<Word>)
    requires |f| == PAGES && HoldsAll(s, base, live, f)
    requires forall b: nat | InSlot(s, base + b * PAGE_SIZE) :: b in live && b in live' && live'[b] == live[b]
    ensures HoldsAll(s, base, live', f)
  {
    hide InSlot, Identity, Blocks;
    forall i | 0 <= i < |s| && s[i].ptr != 0
      ensures Holds(s[i], base, live', f)
    {
      assert Holds(s[i], base, live, f);
      InItsSlot(s, i, base + (s[i].ptr - base) / PAGE_SIZE * PAGE_SIZE);
    }
  }

  lemma InItsSlot(s: seq<Allocation>, i: nat, ptr: int)
    requires i < |s| && s[i].ptr == ptr
    ensures InSlot(s, ptr)
  {
  }

  lemma OwnedByEither(s: seq<Allocation>, w: seq<Word>, base: nat, c: int, b: nat)
    requires IsSpace(w, base, c)
    ensures Owns(s, w, base, c, b) <==> InSpace(w, base, c, b) || InSlot(s, base + b * PAGE_SIZE)
  {
  }

  lemma AgreesParts(s: seq<Allocation>, live: Chains, w: seq<Word>, base: nat, c: int)
    requires IsSpace(w, base, c)
    ensures Agrees(s, live, w, base, c) <==>
              && SpaceLive(w, base, c, live) && HoldsAll(s, base, live, Map(w, base, c))
              && forall b: nat | InSpace(w, base, c, b) :: !InSlot(s, base + b * PAGE_SIZE)
  {
  }

  /** They stay apart, too. */
  lemma StayApart(s1: seq<Allocation>, s2: seq<Allocation>, live: Chains, live': Chains,
                  w: seq<Word>, w': seq<Word>, base: nat, c: int, s: seq<Allocation>, c': int)
    requires base > 0 && IsSpace(w, base, c) && Agrees(s, live, w, base, c')
    requires Apart(s1, c, s, c', w, base) && Foreign(s2, base, live') == Foreign(s1, base, live)
    requires SameSpace(w, w', base, c) && SameSpace(w, w', base, c')
    ensures Apart(s2, c, s, c', w', base)
  {
    AgreesSpaceLive(s, live, w, base, c');
    hide IsSpace, InSpace, Map, Foreign, Agrees, InSlot;
    forall b: nat | Owns(s, w', base, c', b)
      ensures !Owns(s2, w', base, c, b)
    {
      assert Owns(s, w, base, c', b) && !Owns(s1, w, base, c, b);
      OwnedForeign(s1, s2, live, live', w, base, c, s, c', b);
    }
  }

  /** So do two processes that have both kept their blocks. */
  lemma ApartKept(s: seq<Allocation>, c: int, s': seq<Allocation>, c': int, w: seq<Word>, w': seq<Word>, base: nat)
    requires IsSpace(w, base, c) && IsSpace(w, base, c') && Apart(s, c, s', c', w, base)
    requires SameSpace(w, w', base, c) && SameSpace(w, w', base, c')
    ensures Apart(s, c, s', c', w', base)
  {
    hide IsSpace, InSpace, InSlot;
    forall b: nat | Owns(s, w', base, c, b)
      ensures !Owns(s', w', base, c', b)
    {
      assert Owns(s, w, base, c, b) && !Owns(s', w, base, c', b);
    }
  }

  lemma ApartSymmetric(s: seq<Allocation>, c: int, s': seq<Allocation>, c': int, w: seq<Word>, base: nat)
    requires IsSpace(w, base, c) && IsSpace(w, base, c') && Apart(s, c, s', c', w, base)
    ensures Apart(s', c', s, c, w, base)
  {
    hide IsSpace, InSpace, InSlot;
  }

  /** So the other process is valid afterwards, with its map, its chains and what is in them. */
  lemma OtherKept(t: Table, s1: seq<Allocation>, s2: seq<Allocation>, live: Chains, live': Chains,
                  w: seq<Word>, w': seq<Word>, base: nat, c: int, s: seq<Allocation>, c': int)
    requires Represents(t, live) && base > 0 && Agrees(s1, live, w, base, c) && Agrees(s, live, w, base, c')
    requires Apart(s1, c, s, c', w, base) && Foreign(s2, base, live') == Foreign(s1, base, live)
    requires SameSpace(w, w', base, c) && Undisturbed(w, w', Foreign(s1, base, live), base, c)
    ensures Agrees(s, live', w', base, c') && Mine(s, base, live') == Mine(s, base, live)
    ensures LiveWordsKept(w, w', Mine(s, base, live)) && Map(w', base, c') == Map(w, base, c')
    ensures IsSpace(w', base, c') && SameSpace(w, w', base, c') && Apart(s2, c, s, c', w', base)
  {
    AgreesSpaceLive(s1, live, w, base, c);
    AgreesSpaceLive(s, live, w, base, c');
    hide IsSpace, InSpace, Map, Undisturbed, LiveWordsKept, Represents, Agrees, Foreign, Mine, Apart, HoldsAll, InSlot;
    OtherWordsKept(t, s1, live, w, w', base, c, s, c');
    OtherChainsKept(s1, s2, live, live', w, base, c, s, c');
    StayApart(s1, s2, live, live', w, w', base, c, s, c');
    AgreesParts(s, live, w, base, c');
    AgreesParts(s, live', w', base, c');
  }

  // ------------------------------------------------------------- any number of processes

  /** What the kernel does for a process: it serves a call, or terminates its allocations. */
  datatype Event = Asks(who: nat, op: MemOp) | Exits(who: nat)

  method Handle(p: Process, e: Event)
    requires p.Valid()
    modifies p.heap.entries, p.heap`live, p.heap.pool, p.allocations
    ensures p.Valid() && p.Others() == old(p.Others())
    ensures SameSpace(old(p.heap.pool[..]), p.heap.pool[..], p.heap.saddr, p.heap.Block(p.chunk))
    ensures Undisturbed(old(p.heap.pool[..]), p.heap.pool[..], old(p.Others()), p.heap.saddr, p.heap.Block(p.chunk))
    ensures e.Exits? ==> NoSlots(p.allocations[..])
  {
    hide IsSpace, InSpace, Process.Others, Undisturbed, SameSpace, OnlyTables, Agrees, Represents;
    ghost var w, c, m := p.heap.pool[..], p.heap.Block(p.chunk), p.Others();
    AgreesSpaceLive(p.allocations[..], p.heap.live, w, p.heap.saddr, c);
    match e {
      case Asks(_, op) =>
        Processes.Run(p, [op]);
      case Exits(_) =>
        p.TerminateAllocations();
        TablesOnlySameSpace(w, p.heap.pool[..], p.heap.saddr, c);
        TablesOnlyUndisturbed(w, p.heap.pool[..], m, p.heap.saddr, c);
    }
  }

  lemma TablesOnlyUndisturbed(w: seq<Word>, w': seq<Word>, live: Chains, base: nat, c: int)
    requires IsSpace(w, base, c) && OnlyTables(w, w', base, DirectoryOf(w, base, c))
    ensures Undisturbed(w, w', live, base, c)
  {
  }

  /** The processes share the heap, each of them is valid, and no two have anything in common. */
  ghost predicate Together(heap: Heap, ps: seq<Process>)
    reads heap, heap.entries, heap.pool, ps, set i | 0 <= i < |ps| :: ps[i].allocations
  {
    && heap.Valid()
    && (forall i | 0 <= i < |ps| :: ps[i].heap == heap && ps[i].Valid())
    && forall i, j | 0 <= i < |ps| && 0 <= j < |ps| && i != j :: Distinct(heap, ps[i], ps[j])
  }

  ghost predicate Distinct(heap: Heap, p: Process, q: Process)
    requires p.Valid() && q.Valid() && p.heap == heap && q.heap == heap
    reads p, q, heap, heap.entries, heap.pool, p.allocations, q.allocations
  {
    && p.allocations != q.allocations
    && Apart(p.allocations[..], heap.Block(p.chunk), q.allocations[..], heap.Block(q.chunk), heap.pool[..], heap.saddr)
  }

  /** From one state to another a process with the slots s and its space in block c keeps its map,
      its chains, and the words in them. */
  ghost predicate SameMemory(s: seq<Allocation>, base: nat, c: int, live: Chains, w: seq<Word>,
                             live': Chains, w': seq<Word>)
    requires IsSpace(w, base, c) && IsSpace(w', base, c)
  {
    && Mine(s, base, live') == Mine(s, base, live) && Map(w', base, c) == Map(w, base, c)
    && LiveWordsKept(w, w', Mine(s, base, live))
  }

  lemma SameMemoryAtFirst(s: seq<Allocation>, base: nat, c: int, live: Chains, w: seq<Word>)
    requires IsSpace(w, base, c)
    ensures SameMemory(s, base, c, live, w, live, w)
  {
  }

  lemma SameMemoryTwice(s: seq<Allocation>, base: nat, c: int, live: Chains, w: seq<Word>, live': Chains, w': seq<Word>,
                        live'': Chains, w'': seq<Word>)
    requires IsSpace(w, base, c) && IsSpace(w', base, c) && IsSpace(w'', base, c)
    requires SameMemory(s, base, c, live, w, live', w') && SameMemory(s, base, c, live', w', live'', w'')
    ensures SameMemory(s, base, c, live, w, live'', w'')
  {
    hide IsSpace, Map, Covered, Mine;
  }

  /** Its slots are s, and its memory is as it was when the heap had these chains and words. */
  ghost predicate Untouched(p: Process, s: seq<Allocation>, live: Chains, w: seq<Word>)
    reads p, p.heap, p.heap.entries, p.heap.pool, p.allocations
  {
    && p.Valid() && IsSpace(w, p.heap.saddr, p.heap.Block(p.chunk)) && p.allocations[..] == s
    && SameMemory(s, p.heap.saddr, p.heap.Block(p.chunk), live, w, p.heap.live, p.heap.pool[..])
  }

  ghost function Tables(ps: seq<Process>): (r: seq<seq<Allocation>>)
    reads set i | 0 <= i < |ps| :: ps[i].allocations
    ensures |r| == |ps| && forall i | 0 <= i < |ps| :: r[i] == ps[i].allocations[..]
  {
    seq(|ps|, i requires 0 <= i < |ps| reads set j | 0 <= j < |ps| :: ps[j].allocations => ps[i].allocations[..])
  }

  /** The pointer is in no slot of any process. */
  ghost predicate InNoSlot(tables: seq<seq<Allocation>>, ptr: int) {
    forall i | 0 <= i < |tables| :: !InSlot(tables[i], ptr)
  }

  /** Chains that are in the slots of no process */
  ghost function Unclaimed(tables: seq<seq<Allocation>>, base: nat, live: Chains): Chains {
    map b | b in live && InNoSlot(tables, base + b * PAGE_SIZE) :: live[b]
  }

  lemma UnclaimedKept(tables: seq<seq<Allocation>>, k: nat, s: seq<Allocation>, base: nat, live: Chains, live': Chains)
    requires k < |tables| && Foreign(s, base, live') == Foreign(tables[k], base, live)
    ensures Unclaimed(tables[k := s], base, live') == Unclaimed(tables, base, live)
  {
    hide InNoSlot, Foreign;
    var tables' := tables[k := s];
    forall b | b in live || b in live'
      ensures b in Unclaimed(tables', base, live') <==> b in Unclaimed(tables, base, live)
      ensures b in Unclaimed(tables', base, live') ==> b in live && live'[b] == live[b]
    {
      UnclaimedBlock(tables, k, s, base, live, b);
      UnclaimedBlock(tables', k, tables[k], base, live', b);
      assert tables'[k := tables[k]] == tables;
      ForeignBlock(s, base, live', b);
      ForeignBlock(tables[k], base, live, b);
    }
  }

  lemma ForeignBlock(s: seq<Allocation>, base: nat, live: Chains, b: nat)
    ensures b in Foreign(s, base, live) <==> b in live && !InSlot(s, base + b * PAGE_SIZE)
    ensures b in Foreign(s, base, live) ==> Foreign(s, base, live)[b] == live[b]
  {
  }

  lemma UnclaimedBlock(tables: seq<seq<Allocation>>, k: nat, s: seq<Allocation>, base: nat, live: Chains, b: nat)
    requires k < |tables|
    ensures b in Unclaimed(tables, base, live) ==> b in live && !InSlot(tables[k], base + b * PAGE_SIZE)
    ensures b in Unclaimed(tables, base, live) && !InSlot(s, base + b * PAGE_SIZE)
            ==> InNoSlot(tables[k := s], base + b * PAGE_SIZE)
  {
    hide InSlot;
  }

  /** One event: every other process is untouched. */
  method Step(heap: Heap, ps: seq<Process>, e: Event)
    requires Together(heap, ps) && e.who < |ps|
    modifies heap.entries, heap`live, heap.pool, ps[e.who].allocations
    ensures Together(heap, ps)
    ensures forall i | 0 <= i < |ps| && i != e.who ::
              Untouched(ps[i], old(ps[i].allocations[..]), old(heap.live), old(heap.pool[..]))
    ensures forall i | 0 <= i < |ps| ::
              SameSpace(old(heap.pool[..]), heap.pool[..], heap.saddr, heap.Block(ps[i].chunk))
    ensures Unclaimed(Tables(ps), heap.saddr, heap.live) == old(Unclaimed(Tables(ps), heap.saddr, heap.live))
    ensures Tables(ps) == old(Tables(ps))[e.who := ps[e.who].allocations[..]]
    ensures e.Exits? ==> NoSlots(ps[e.who].allocations[..])
  {
    hide IsSpace, InSpace, Agrees, Represents, Undisturbed, SameSpace, Apart, Foreign, Mine, LiveWordsKept, Map,
         Tables, Unclaimed, NoSlots;
    var p := ps[e.who];
    ghost var t, m, w, base, c, s := heap.entries[..], heap.live, heap.pool[..], heap.saddr, heap.Block(p.chunk),
      p.allocations[..];
    forall i | 0 <= i < |ps|
      ensures IsSpace(w, base, heap.Block(ps[i].chunk))
    {
      AgreesSpaceLive(ps[i].allocations[..], m, w, base, heap.Block(ps[i].chunk));
    }
    Handle(p, e);
    AgreesSpaceLive(p.allocations[..], heap.live, heap.pool[..], base, c);
    forall i | 0 <= i < |ps| && i != e.who
      ensures ps[i].Valid() && Untouched(ps[i], old(ps[i].allocations[..]), m, w) && Distinct(heap, p, ps[i])
      ensures IsSpace(heap.pool[..], base, heap.Block(ps[i].chunk))
      ensures SameSpace(w, heap.pool[..], base, heap.Block(ps[i].chunk))
    {
      assert old(Distinct(heap, p, ps[i]));
      OtherKept(t, s, p.allocations[..], m, heap.live, w, heap.pool[..], base, c,
                ps[i].allocations[..], heap.Block(ps[i].chunk));
    }
    forall i, j | 0 <= i < |ps| && 0 <= j < |ps| && i != j
      ensures Distinct(heap, ps[i], ps[j])
    {
      assert old(Distinct(heap, ps[i], ps[j]));
      if j == e.who {
        ApartSymmetric(p.allocations[..], c, ps[i].allocations[..], heap.Block(ps[i].chunk), heap.pool[..], base);
      } else if i != e.who {
        ApartKept(ps[i].allocations[..], heap.Block(ps[i].chunk), ps[j].allocations[..], heap.Block(ps[j].chunk),
                  w, heap.pool[..], base);
      }
    }
    assert Tables(ps) == old(Tables(ps))[e.who := p.allocations[..]];
    UnclaimedKept(old(Tables(ps)), e.who, p.allocations[..], base, m, heap.live);
  }

  /** Any events of any number of processes, in any order: all stay valid and apart, a process
      that is not named is untouched, and so is every chain that belongs to none. */
  method Interleave(heap: Heap, ps: seq<Process>, events: seq<Event>)
    requires Together(heap, ps) && forall k | 0 <= k < |events| :: events[k].who < |ps|
    modifies heap.entries, heap`live, heap.pool, set i | 0 <= i < |ps| :: ps[i].allocations
    ensures Together(heap, ps)
    ensures forall i | 0 <= i < |ps| && (forall k | 0 <= k < |events| :: events[k].who != i) ::
              Untouched(ps[i], old(ps[i].allocations[..]), old(heap.live), old(heap.pool[..]))
    ensures Unclaimed(Tables(ps), heap.saddr, heap.live) == old(Unclaimed(Tables(ps), heap.saddr, heap.live))
  {
    hide IsSpace, InSpace, Agrees, Represents, SameMemory, Unclaimed, Distinct;
    ghost var m0, w0 := heap.live, heap.pool[..];
    forall i | 0 <= i < |ps|
      ensures IsSpace(w0, heap.saddr, heap.Block(ps[i].chunk)) && Untouched(ps[i], ps[i].allocations[..], m0, w0)
    {
      AgreesSpaceLive(ps[i].allocations[..], m0, w0, heap.saddr, heap.Block(ps[i].chunk));
      SameMemoryAtFirst(ps[i].allocations[..], heap.saddr, heap.Block(ps[i].chunk), m0, w0);
    }
    for n := 0 to |events|
      invariant Together(heap, ps)
      invariant forall i | 0 <= i < |ps| && (forall k | 0 <= k < n :: events[k].who != i) ::
                  Untouched(ps[i], old(ps[i].allocations[..]), m0, w0)
      invariant Unclaimed(Tables(ps), heap.saddr, heap.live) == old(Unclaimed(Tables(ps), heap.saddr, heap.live))
    {
      ghost var m, w := heap.live, heap.pool[..];
      forall i | 0 <= i < |ps| && (forall k | 0 <= k < n :: events[k].who != i)
        ensures IsSpace(w, heap.saddr, heap.Block(ps[i].chunk))
        ensures ps[i].allocations[..] == old(ps[i].allocations[..])
        ensures SameMemory(old(ps[i].allocations[..]), heap.saddr, heap.Block(ps[i].chunk), m0, w0, m, w)
      {
        assert Untouched(ps[i], old(ps[i].allocations[..]), m0, w0);
        AgreesSpaceLive(ps[i].allocations[..], m, w, heap.saddr, heap.Block(ps[i].chunk));
      }
      Step(heap, ps, events[n]);
      forall i | 0 <= i < |ps| && (forall k | 0 <= k <= n :: events[k].who != i)
        ensures Untouched(ps[i], old(ps[i].allocations[..]), m0, w0)
      {
        assert events[n].who != i;
        AgreesSpaceLive(ps[i].allocations[..], heap.live, heap.pool[..], heap.saddr, heap.Block(ps[i].chunk));
        SameMemoryTwice(ps[i].allocations[..], heap.saddr, heap.Block(ps[i].chunk), m0, w0, m, w,
                        heap.live, heap.pool[..]);
      }
    }
  }

  ghost predicate AllEmpty(tables: seq<seq<Allocation>>) {
    forall i | 0 <= i < |tables| :: NoSlots(tables[i])
  }

  lemma EmptyClaimNothing(tables: seq<seq<Allocation>>, base: nat, live: Chains)
    requires base > 0 && AllEmpty(tables)
    ensures Unclaimed(tables, base, live) == live
  {
  }

  /** Processes without allocations: after any interleaving of their calls and the termination of
      each of them every byte of the heap table is as before. */
  method Sessions(heap: Heap, ps: seq<Process>, events: seq<Event>)
    requires Together(heap, ps) && AllEmpty(Tables(ps)) && forall k | 0 <= k < |events| :: events[k].who < |ps|
    modifies heap.entries, heap`live, heap.pool, set i | 0 <= i < |ps| :: ps[i].allocations
    ensures Together(heap, ps) && AllEmpty(Tables(ps))
    ensures heap.live == old(heap.live) && heap.entries[..] == old(heap.entries[..])
  {
    hide Unclaimed, Untouched, Distinct, Represents, Process.Valid, Tables, NoSlots;
    ghost var t, m := heap.entries[..], heap.live;
    EmptyClaimNothing(Tables(ps), heap.saddr, m);
    Interleave(heap, ps, events);
    for n := 0 to |ps|
      invariant Together(heap, ps)
      invariant forall i | 0 <= i < n :: NoSlots(Tables(ps)[i])
      invariant Unclaimed(Tables(ps), heap.saddr, heap.live) == m
    {
      Step(heap, ps, Exits(n));
    }
    EmptyClaimNothing(Tables(ps), heap.saddr, heap.live);
    TableUnique(t, heap.entries[..], m);
  }
}

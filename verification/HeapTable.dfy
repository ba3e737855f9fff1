/** The block table of the kernel heap (src/memory/heap/heap.c) as a value: what
    its bytes mean, and how marking and freeing chains of blocks changes them. */
module HeapTable {
  type Entry = bv8
  type Table = seq<Entry>

  const FREE: Entry := 0x00
  const TAKEN: Entry := 0x01
  const IS_FIRST: Entry := 0x40
  const HAS_NEXT: Entry := 0x80

  /** heap_get_entry_type(entry) == HEAP_BLOCK_TABLE_ENTRY_FREE */
  predicate IsFree(e: Entry) {
    e & 0x0f == FREE
  }

  /** The byte of block j of a chain of n blocks. */
  function ChainByte(j: nat, n: nat): Entry
    requires j < n
  {
    TAKEN | (if j == 0 then IS_FIRST else 0) | (if j + 1 < n then HAS_NEXT else 0)
  }

  ghost predicate ChainAt(t: Table, start: nat, n: nat) {
    && 0 < n && start + n <= |t|
    && forall k | start <= k < start + n :: t[k] == ChainByte(k - start, n)
  }

  /** The live chains: start block to number of blocks. */
  type Chains = map<nat, nat>

  ghost predicate Covered(live: Chains, k: int) {
    exists s :: s in live && s <= k < s + live[s]
  }

  /** The table holds exactly these chains and is zero everywhere else. */
  ghost predicate Represents(t: Table, live: Chains) {
    && (forall s | s in live :: ChainAt(t, s, live[s]))
    && (forall k | 0 <= k < |t| && t[k] != FREE :: Covered(live, k))
  }

  /** Only the first block of a chain carries IS_FIRST, only the last lacks HAS_NEXT. */
  lemma ChainMarks(t: Table, s: nat, n: nat)
    requires ChainAt(t, s, n)
    ensures t[s] & IS_FIRST == IS_FIRST
    ensures forall k | s < k < s + n :: t[k] & IS_FIRST == 0
    ensures forall k | s <= k < s + n :: t[k] & HAS_NEXT == 0 <==> k == s + n - 1
    ensures forall k | s <= k < s + n :: !IsFree(t[k]) && t[k] != FREE
  {
    forall k | s <= k < s + n
      ensures !IsFree(t[k]) && t[k] != FREE
      ensures t[k] & HAS_NEXT == 0 <==> k == s + n - 1
      ensures t[k] & IS_FIRST == if k == s then IS_FIRST else 0
    {
      assert t[k] == ChainByte(k - s, n);
    }
  }

  /** The bytes of a chain: 0x41 for a single block, else 0xc1, any number of 0x81, and 0x01. */
  lemma ChainBytes(t: Table, s: nat, n: nat)
    requires ChainAt(t, s, n)
    ensures n == 1 ==> t[s] == 0x41
    ensures n > 1 ==> t[s] == 0xc1 && t[s + n - 1] == 0x01 && forall k | s < k < s + n - 1 :: t[k] == 0x81
  {
    forall k | s <= k < s + n
      ensures t[k] == if n == 1 then 0x41 else if k == s then 0xc1 else if k == s + n - 1 then 0x01 else 0x81
    {
      assert t[k] == ChainByte(k - s, n);
    }
  }

  /** Chains never overlap: the second one's first byte would sit inside the first. */
  lemma ChainsDisjoint(t: Table, live: Chains, a: nat, b: nat)
    requires Represents(t, live) && a in live && b in live && a < b
    ensures a + live[a] <= b
  {
    ChainMarks(t, a, live[a]);
    ChainMarks(t, b, live[b]);
  }

  /** The bytes determine the chains. */
  lemma ChainsUnique(t: Table, m: Chains, m': Chains)
    requires Represents(t, m) && Represents(t, m')
    ensures m == m'
  {
    forall s | s in m
      ensures s in m' && m'[s] == m[s]
    {
      StartUnique(t, m, m', s);
    }
    forall s | s in m'
      ensures s in m
    {
      StartUnique(t, m', m, s);
    }
  }

  lemma StartUnique(t: Table, m: Chains, m': Chains, s: nat)
    requires Represents(t, m) && Represents(t, m') && s in m
    ensures s in m' && m'[s] == m[s]
  {
    ChainMarks(t, s, m[s]);
    assert Covered(m', s);
    var s' :| s' in m' && s' <= s < s' + m'[s'];
    ChainMarks(t, s', m'[s']);
    var last, last' := s + m[s] - 1, s' + m'[s'] - 1;
    assert t[last] & HAS_NEXT == 0 && t[last'] & HAS_NEXT == 0;
  }

  /** The chains determine the bytes: equal chains mean equal tables. */
  lemma TableUnique(t: Table, t': Table, live: Chains)
    requires Represents(t, live) && Represents(t', live) && |t| == |t'|
    ensures t == t'
  {
    forall k | 0 <= k < |t|
      ensures t[k] == t'[k]
    {
      if t[k] != FREE || t'[k] != FREE {
        var s :| s in live && s <= k < s + live[s];
        assert ChainAt(t, s, live[s]) && ChainAt(t', s, live[s]);
        assert t[k] == ChainByte(k - s, live[s]) == t'[k];
      }
    }
  }

  lemma FreeIsZero(t: Table, live: Chains, k: nat)
    requires Represents(t, live) && k < |t|
    ensures IsFree(t[k]) <==> t[k] == FREE
    ensures IsFree(t[k]) <==> !Covered(live, k)
  {
    if Covered(live, k) {
      var s :| s in live && s <= k < s + live[s];
      ChainMarks(t, s, live[s]);
    }
  }

  /** n free blocks from start on, all inside the table. */
  ghost predicate Fits(t: Table, start: int, n: nat) {
    && 0 <= start && start + n <= |t|
    && forall k | start <= k < start + n :: IsFree(t[k])
  }

  ghost predicate SomeFit(t: Table, n: nat) {
    exists s :: Fits(t, s, n)
  }

  ghost predicate LowestFit(t: Table, start: int, n: nat) {
    && Fits(t, start, n)
    && forall s | 0 <= s < start :: !Fits(t, s, n)
  }

  /** start begins the maximal free run that ends at the end of the table. */
  ghost predicate TrailingRun(t: Table, start: int) {
    && 0 <= start < |t|
    && (forall k | start <= k < |t| :: IsFree(t[k]))
    && (0 < start ==> !IsFree(t[start - 1]))
  }

  predicate LastTaken(t: Table) {
    |t| == 0 || !IsFree(t[|t| - 1])
  }

  /** The table after marking n blocks from start. */
  function Mark(t: Table, start: nat, n: nat): (r: Table)
    requires start + n <= |t|
    ensures |r| == |t|
    ensures forall k | 0 <= k < |t| ::
              r[k] == if start <= k < start + n then ChainByte(k - start, n) else t[k]
  {
    t[..start] + seq(n, j requires 0 <= j < n => ChainByte(j, n)) + t[start + n..]
  }

  /** The table after freeing n blocks from start. */
  function Unmark(t: Table, start: nat, n: nat): (r: Table)
    requires start + n <= |t|
    ensures |r| == |t|
    ensures forall k | 0 <= k < |t| :: r[k] == if start <= k < start + n then FREE else t[k]
  {
    t[..start] + seq(n, _ => FREE) + t[start + n..]
  }

  lemma MarkAddsChain(t: Table, live: Chains, start: nat, n: nat)
    requires Represents(t, live) && 0 < n && Fits(t, start, n)
    ensures start !in live
    ensures Represents(Mark(t, start, n), live[start := n])
  {
    var t', live' := Mark(t, start, n), live[start := n];
    forall s | s in live
      ensures ChainAt(t', s, live[s]) && s != start
    {
      FitAvoidsChain(t, live, start, n, s);
      assert ChainAt(t, s, live[s]);
    }
    forall k | 0 <= k < |t'| && t'[k] != FREE
      ensures Covered(live', k)
    {
      if start <= k < start + n {
        assert start in live';
      } else {
        var s :| s in live && s <= k < s + live[s];
        assert s in live' && live'[s] == live[s];
      }
    }
  }

  lemma FitAvoidsChain(t: Table, live: Chains, start: nat, n: nat, s: nat)
    requires Represents(t, live) && 0 < n && Fits(t, start, n) && s in live
    ensures start + n <= s || s + live[s] <= start
  {
    ChainMarks(t, s, live[s]);
    var k := if s < start then start else s;
    assert start <= k < start + n ==> IsFree(t[k]);
    assert s <= k < s + live[s] ==> !IsFree(t[k]);
  }

  lemma UnmarkRemovesChain(t: Table, live: Chains, start: nat)
    requires Represents(t, live) && start in live
    ensures ChainAt(t, start, live[start])
    ensures Represents(Unmark(t, start, live[start]), live - {start})
  {
    assert ChainAt(t, start, live[start]);
    var t', live' := Unmark(t, start, live[start]), live - {start};
    forall s | s in live'
      ensures ChainAt(t', s, live'[s])
    {
      assert ChainAt(t, s, live[s]);
      if s < start {
        ChainsDisjoint(t, live, s, start);
      } else {
        ChainsDisjoint(t, live, start, s);
      }
    }
    forall k | 0 <= k < |t'| && t'[k] != FREE
      ensures Covered(live', k)
    {
      var s :| s in live && s <= k < s + live[s];
      assert s in live';
    }
  }

  // ---------------------------------------------------------- conservation

  /** Free blocks among the first k. */
  function FreeBelow(t: Table, k: nat): (c: nat)
    requires k <= |t|
  {
    if k == 0 then 0 else FreeBelow(t, k - 1) + (if IsFree(t[k - 1]) then 1 else 0)
  }

  function FreeCount(t: Table): nat {
    FreeBelow(t, |t|)
  }

  /** Total length of the chains starting below block k. */
  function LengthBelow(live: Chains, k: nat): nat {
    if k == 0 then 0 else LengthBelow(live, k - 1) + (if k - 1 in live then live[k - 1] else 0)
  }

  /** Free blocks and chain lengths account for every block below a chain boundary. */
  lemma {:induction false} BlocksConserved(t: Table, live: Chains, k: nat)
    requires Represents(t, live) && k <= |t|
    requires forall s | s in live && s < k :: s + live[s] <= k
    ensures FreeBelow(t, k) + LengthBelow(live, k) == k
  {
    if k > 0 {
      FreeIsZero(t, live, k - 1);
      if IsFree(t[k - 1]) {
        assert forall s | s in live && s <= k - 1 :: ChainAt(t, s, live[s]) && s + live[s] <= k - 1;
        BlocksConserved(t, live, k - 1);
      } else {
        var s :| s in live && s <= k - 1 < s + live[s];
        forall s' | s' in live && s' < s
          ensures s' + live[s'] <= s
        {
          ChainsDisjoint(t, live, s', s);
        }
        BlocksConserved(t, live, s);
        InsideChain(t, live, s, k);
      }
    }
  }

  /** From a chain's start to any point inside it: no free block, no other start. */
  lemma {:induction false} InsideChain(t: Table, live: Chains, s: nat, k: nat)
    requires Represents(t, live) && s in live && s < k <= s + live[s] && k <= |t|
    ensures FreeBelow(t, k) == FreeBelow(t, s)
    ensures LengthBelow(live, k) == LengthBelow(live, s) + live[s]
  {
    FreeIsZero(t, live, k - 1);
    assert Covered(live, k - 1);
    if k - 1 > s {
      forall s' | s' in live && s < s'
        ensures s + live[s] <= s'
      {
        ChainsDisjoint(t, live, s, s');
      }
      InsideChain(t, live, s, k - 1);
    }
  }

  /** Free blocks plus chain lengths equals the number of blocks in the table. */
  lemma TableConserved(t: Table, live: Chains)
    requires Represents(t, live)
    ensures FreeCount(t) + LengthBelow(live, |t|) == |t|
  {
    forall s | s in live
      ensures s + live[s] <= |t|
    {
      assert ChainAt(t, s, live[s]);
    }
    BlocksConserved(t, live, |t|);
  }

  lemma {:induction false} LengthWithChain(live: Chains, start: nat, n: nat, k: nat)
    requires start !in live
    ensures LengthBelow(live[start := n], k) == LengthBelow(live, k) + (if start < k then n else 0)
  {
    if k > 0 {
      LengthWithChain(live, start, n, k - 1);
    }
  }

  /** An allocation of n blocks costs exactly n free blocks. */
  lemma MarkCostsLength(t: Table, live: Chains, start: nat, n: nat)
    requires Represents(t, live) && 0 < n && Fits(t, start, n)
    ensures FreeCount(Mark(t, start, n)) == FreeCount(t) - n
  {
    MarkAddsChain(t, live, start, n);
    TableConserved(t, live);
    TableConserved(Mark(t, start, n), live[start := n]);
    LengthWithChain(live, start, n, |t|);
  }

  lemma {:induction false} FreeBlockExists(t: Table, k: nat)
    requires k <= |t| && FreeBelow(t, k) > 0
    ensures exists s :: Fits(t, s, 1)
  {
    if IsFree(t[k - 1]) {
      assert Fits(t, k - 1, 1);
    } else {
      FreeBlockExists(t, k - 1);
    }
  }

  // ------------------------------------------------------------------ runs

  datatype State = State(table: Table, live: Chains)

  /** One call: an allocation at the lowest fit, a free of a live chain, or a failed call. */
  ghost predicate Step(s: State, s': State) {
    || (exists b: nat, n: nat :: 0 < n && LowestFit(s.table, b, n)
                                && s' == State(Mark(s.table, b, n), s.live[b := n]))
    || (exists b: nat :: b in s.live && b + s.live[b] <= |s.table|
                        && s' == State(Unmark(s.table, b, s.live[b]), s.live - {b}))
    || s' == s
  }

  ghost predicate Run(states: seq<State>) {
    && |states| > 0
    && forall i | 0 <= i < |states| - 1 :: Step(states[i], states[i + 1])
  }

  lemma StepKeepsChains(s: State, s': State)
    requires Represents(s.table, s.live) && Step(s, s')
    ensures Represents(s'.table, s'.live) && |s'.table| == |s.table|
  {
    if b: nat, n: nat :| 0 < n && LowestFit(s.table, b, n)
                        && s' == State(Mark(s.table, b, n), s.live[b := n]) {
      MarkAddsChain(s.table, s.live, b, n);
    } else if b: nat :| b in s.live && b + s.live[b] <= |s.table|
                        && s' == State(Unmark(s.table, b, s.live[b]), s.live - {b}) {
      UnmarkRemovesChain(s.table, s.live, b);
    }
  }

  /** Over every run the bytes stay a disjoint set of well-formed chains, blocks are
      conserved, and a run that ends with the chains it began with ends with the same bytes. */
  lemma {:induction false} RunsKeepChains(states: seq<State>)
    requires Run(states) && Represents(states[0].table, states[0].live)
    ensures var s, e := states[0], states[|states| - 1];
            && Represents(e.table, e.live) && |e.table| == |s.table|
            && FreeCount(e.table) + LengthBelow(e.live, |s.table|) == |s.table|
            && (e.live == s.live ==> e.table == s.table)
  {
    var s, e := states[0], states[|states| - 1];
    if |states| > 1 {
      var front := states[..|states| - 1];
      RunsKeepChains(front);
      assert states[|states| - 2 + 1] == e;
      StepKeepsChains(states[|states| - 2], e);
    }
    TableConserved(e.table, e.live);
    if e.live == s.live {
      TableUnique(s.table, e.table, s.live);
    }
  }
}

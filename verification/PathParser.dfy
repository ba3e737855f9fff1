/** src/fs/pparser.c: a path taken apart into a linked list in heap memory, and freed again. */
module PathParser {
  import opened Words
  import opened HeapTable
  import opened Heaps
  import opened KHeap
  import opened PageTables
  import opened Paging
  import opened AddressSpace
  import opened PoolBytes

  const MAX_PATH := 108 // VIOS_MAX_PATH
  const SLASH: Byte := 47
  const COLON: Byte := 58
  const DIGIT_ZERO: Byte := 48
  const EBADPATH := 4

  // ------------------------------------------------------------- paths as values

  /** The characters before the first slash, or all of them */
  function PartLength(p: seq<Byte>): (n: nat)
    ensures n <= |p| && SLASH !in p[..n]
    ensures n < |p| ==> p[n] == SLASH
  {
    if p == [] || p[0] == SLASH then 0
    else
      assert p == [p[0]] + p[1..];
      1 + PartLength(p[1..])
  }

  /** What follows the first part and its slash */
  function Rest(p: seq<Byte>): seq<Byte> {
    var n := PartLength(p);
    if n < |p| then p[n + 1..] else []
  }

  /** The parts up to the first empty one */
  function Parts(p: seq<Byte>): seq<seq<Byte>>
    decreases |p|
  {
    var n := PartLength(p);
    if n == 0 then [] else [p[..n]] + Parts(Rest(p))
  }

  predicate IsPart(s: seq<Byte>) {
    s != [] && SLASH !in s
  }

  /** The parts with a slash between each two */
  function Join(parts: seq<seq<Byte>>): seq<Byte> {
    if parts == [] then []
    else if |parts| == 1 then parts[0]
    else parts[0] + [SLASH] + Join(parts[1..])
  }

  lemma {:induction false} PartLengthUnique(p: seq<Byte>, n: nat)
    requires n <= |p| && SLASH !in p[..n] && (n < |p| ==> p[n] == SLASH)
    ensures PartLength(p) == n
  {
    if n > 0 {
      assert p[0] == p[..n][0] && p[1..][..n - 1] == p[..n][1..];
      PartLengthUnique(p[1..], n - 1);
    }
  }

  lemma JoinCons(s: seq<Byte>, parts: seq<seq<Byte>>)
    ensures Join([s] + parts) == if parts == [] then s else s + [SLASH] + Join(parts)
  {
    assert ([s] + parts)[1..] == parts;
  }

  /** Parsing printed parts gives them back. */
  lemma {:induction false} PartsOfJoined(parts: seq<seq<Byte>>)
    requires forall i | 0 <= i < |parts| :: IsPart(parts[i])
    ensures Parts(Join(parts)) == parts
  {
    if parts != [] {
      var p, s, rest := Join(parts), parts[0], parts[1..];
      assert parts == [s] + rest;
      JoinCons(s, rest);
      assert p[..|s|] == s;
      PartLengthUnique(p, |s|);
      assert Rest(p) == Join(rest);
      PartsOfJoined(rest);
    }
  }

  /** The path starts with these parts printed, and goes on with nothing, a last slash or
      an empty part. */
  predicate MaximalPrefix(p: seq<Byte>, parts: seq<seq<Byte>>) {
    var j := |Join(parts)|;
    && j <= |p| && p[..j] == Join(parts)
    && (j < |p| ==> p[j] == SLASH)
    && (0 < j && j + 1 < |p| ==> p[j + 1] == SLASH)
  }

  lemma MaximalCons(p: seq<Byte>, parts: seq<seq<Byte>>)
    requires PartLength(p) > 0 && MaximalPrefix(Rest(p), parts)
    requires parts == [] ==> PartLength(Rest(p)) == 0
    requires parts != [] ==> IsPart(parts[0])
    ensures MaximalPrefix(p, [p[..PartLength(p)]] + parts)
  {
    var n, q := PartLength(p), Rest(p);
    var s := p[..n];
    JoinCons(s, parts);
    if n < |p| {
      assert p == s + [SLASH] + q;
    }
    if parts != [] {
      JoinStart(parts);
    }
  }

  lemma JoinStart(parts: seq<seq<Byte>>)
    requires parts != [] && IsPart(parts[0])
    ensures Join(parts) != []
  {
  }

  /** The parts of any path are non-empty, free of slashes, and a maximal prefix of it. */
  lemma {:induction false} PartsMaximal(p: seq<Byte>)
    ensures forall i | 0 <= i < |Parts(p)| :: IsPart(Parts(p)[i])
    ensures MaximalPrefix(p, Parts(p))
    decreases |p|
  {
    hide MaximalPrefix;
    if PartLength(p) > 0 {
      PartsMaximal(Rest(p));
      MaximalCons(p, Parts(Rest(p)));
    } else {
      EmptyPrefix(p);
    }
  }

  lemma EmptyPrefix(p: seq<Byte>)
    requires PartLength(p) == 0
    ensures MaximalPrefix(p, [])
  {
  }

  // ------------------------------------------------------------- lists in memory

  /** The blocks of one part: its characters, and its struct path_part */
  datatype Node = Node(str: nat, part: nat)

  ghost predicate StringAt(w: seq<Word>, b: nat, s: seq<Byte>) {
    InPool(w, b) && |s| < MAX_PATH && Bytes(w, b, |s| + 1) == s + [0]
  }

  ghost predicate NodeAt(w: seq<Word>, base: nat, n: Node, s: seq<Byte>, next: int) {
    && InPool(w, n.part)
    && w[n.part * ENTRIES] == base + n.str * PAGE_SIZE && w[n.part * ENTRIES + 1] == next
    && StringAt(w, n.str, s)
  }

  /** The address of node i, null past the end */
  function Link(base: nat, nodes: seq<Node>, i: nat): int {
    if i < |nodes| then base + nodes[i].part * PAGE_SIZE else 0
  }

  ghost predicate ListAt(w: seq<Word>, base: nat, nodes: seq<Node>, parts: seq<seq<Byte>>) {
    && |parts| == |nodes|
    && forall i | 0 <= i < |nodes| :: NodeAt(w, base, nodes[i], parts[i], Link(base, nodes, i + 1))
  }

  ghost predicate InNodes(nodes: seq<Node>, b: nat) {
    exists i :: 0 <= i < |nodes| && (nodes[i].str == b || nodes[i].part == b)
  }

  /** No block is used twice. */
  ghost predicate Distinct(nodes: seq<Node>) {
    && (forall i | 0 <= i < |nodes| :: nodes[i].str != nodes[i].part)
    && (forall i, j | 0 <= i < j < |nodes| ::
          && nodes[i].str != nodes[j].str && nodes[i].str != nodes[j].part
          && nodes[i].part != nodes[j].str && nodes[i].part != nodes[j].part)
  }

  /** The chains m are those of m0 and the blocks of the nodes, one by one. */
  ghost predicate Holding(m0: Chains, m: Chains, nodes: seq<Node>) {
    && Distinct(nodes)
    && (forall b: nat :: b in m <==> b in m0 || InNodes(nodes, b))
    && (forall b: nat | b in m0 :: !InNodes(nodes, b) && m[b] == m0[b])
    && (forall b: nat | InNodes(nodes, b) :: b in m && m[b] == 1)
  }

  lemma HoldingNone(m0: Chains, m: Chains)
    requires Holding(m0, m, [])
    ensures m == m0
  {
    assert forall b: nat :: b in m <==> b in m0;
  }

  lemma HoldingMore(m0: Chains, m: Chains, nodes: seq<Node>, n: Node)
    requires Holding(m0, m, nodes) && n.str !in m && n.part !in m && n.str != n.part
    ensures Holding(m0, m[n.str := 1][n.part := 1], nodes + [n])
  {
    hide InNodes, Distinct;
    forall b: nat
      ensures InNodes(nodes + [n], b) <==> InNodes(nodes, b) || b == n.str || b == n.part
    {
      InNodesMore(nodes, n, b);
    }
    DistinctMore(nodes, n);
  }

  lemma InNodesMore(nodes: seq<Node>, n: Node, b: nat)
    ensures InNodes(nodes + [n], b) <==> InNodes(nodes, b) || b == n.str || b == n.part
  {
    var nodes' := nodes + [n];
    assert nodes'[|nodes|] == n;
    if InNodes(nodes, b) {
      var i :| 0 <= i < |nodes| && (nodes[i].str == b || nodes[i].part == b);
      assert nodes'[i] == nodes[i];
    }
  }

  lemma DistinctMore(nodes: seq<Node>, n: Node)
    requires Distinct(nodes) && !InNodes(nodes, n.str) && !InNodes(nodes, n.part) && n.str != n.part
    ensures Distinct(nodes + [n])
  {
  }

  lemma HoldingLess(m0: Chains, m: Chains, nodes: seq<Node>)
    requires nodes != [] && Holding(m0, m, nodes)
    ensures nodes[0].str in m && nodes[0].part in m - {nodes[0].str}
    ensures Holding(m0, m - {nodes[0].str} - {nodes[0].part}, nodes[1..])
  {
    assert InNodes(nodes, nodes[0].str) && InNodes(nodes, nodes[0].part);
    forall b: nat
      ensures InNodes(nodes, b) <==> InNodes(nodes[1..], b) || b == nodes[0].str || b == nodes[0].part
    {
      if InNodes(nodes, b) {
        var i :| 0 <= i < |nodes| && (nodes[i].str == b || nodes[i].part == b);
        assert i > 0 ==> nodes[1..][i - 1] == nodes[i];
      }
    }
    forall b: nat | b == nodes[0].str || b == nodes[0].part
      ensures !InNodes(nodes[1..], b)
    {
    }
  }

  /** Memory of blocks in use decides the list. */
  lemma ListKept(w: seq<Word>, w': seq<Word>, base: nat, nodes: seq<Node>, parts: seq<seq<Byte>>, m0: Chains, m: Chains)
    requires ListAt(w, base, nodes, parts) && Holding(m0, m, nodes) && LiveWordsKept(w, w', m)
    ensures ListAt(w', base, nodes, parts)
  {
    forall i | 0 <= i < |nodes|
      ensures NodeAt(w', base, nodes[i], parts[i], Link(base, nodes, i + 1))
    {
      assert InNodes(nodes, nodes[i].str) && InNodes(nodes, nodes[i].part);
      BlockKept(w, w', m, nodes[i].str);
      BlockKept(w, w', m, nodes[i].part);
      NodeKept(w, w', base, nodes[i], parts[i], Link(base, nodes, i + 1));
    }
  }

  lemma BlockKept(w: seq<Word>, w': seq<Word>, m: Chains, b: nat)
    requires LiveWordsKept(w, w', m) && b in m && m[b] == 1
    ensures SameBlock(w, w', b)
  {
    assert Covered(m, b);
  }

  lemma NodeKept(w: seq<Word>, w': seq<Word>, base: nat, n: Node, s: seq<Byte>, next: int)
    requires NodeAt(w, base, n, s, next) && SameBlock(w, w', n.str) && SameBlock(w, w', n.part)
    ensures NodeAt(w', base, n, s, next)
  {
    assert n.part * ENTRIES / ENTRIES == n.part && (n.part * ENTRIES + 1) / ENTRIES == n.part;
    BytesKept(w, w', n.str, |s| + 1);
  }

  // ------------------------------------------------------------- one part

  /** s and NULs up to the size of a part's buffer */
  ghost function Filled(s: seq<Byte>): (r: seq<Byte>)
    requires |s| <= MAX_PATH
    ensures |r| == MAX_PATH
  {
    s + seq<Byte>(MAX_PATH - |s|, _ => 0)
  }

  lemma ZeroedBlock(w: seq<Word>, b: nat)
    requires InPool(w, b)
    ensures Bytes(ZeroBytes(w, b * ENTRIES, MAX_PATH), b, MAX_PATH) == Filled([])
  {
    hide GetByte;
    var w' := ZeroBytes(w, b * ENTRIES, MAX_PATH);
    forall i | 0 <= i < MAX_PATH
      ensures Bytes(w', b, MAX_PATH)[i] == 0
    {
      assert Bytes(w', b, MAX_PATH)[i] == PoolByte(w', b * PAGE_SIZE + i);
      assert b * ENTRIES <= (b * PAGE_SIZE + i) / 4 < b * ENTRIES + MAX_PATH / 4;
      ByteOfZero((b * PAGE_SIZE + i) % 4);
    }
  }

  lemma {:induction false} ByteOfZero(k: nat)
    ensures GetByte(0, k) == 0
  {
    if k > 0 {
      ByteOfZero(k - 1);
    }
  }

  lemma FilledString(w: seq<Word>, b: nat, s: seq<Byte>)
    requires InPool(w, b) && |s| < MAX_PATH && Bytes(w, b, MAX_PATH) == Filled(s)
    ensures StringAt(w, b, s)
  {
    hide PoolByte;
    forall i | 0 <= i <= |s|
      ensures Bytes(w, b, |s| + 1)[i] == (s + [0])[i]
    {
      assert Bytes(w, b, MAX_PATH)[i] == Bytes(w, b, |s| + 1)[i];
    }
  }

  /** A character of the path; it is followed by a NUL. */
  function CharAt(p: seq<Byte>, i: nat): Byte {
    if i < |p| then p[i] else 0
  }

  /** One character goes into the part's buffer. */
  method PutChar(heap: Heap, str: Word, i: nat, c: Byte, ghost s: seq<Byte>, ghost b: nat)
    requires heap.Layout() && InPool(heap.pool[..], b) && str == heap.Address(b)
    requires i == |s| < MAX_PATH && Bytes(heap.pool[..], b, MAX_PATH) == Filled(s)
    modifies heap.pool
    ensures SameOutside(old(heap.pool[..]), heap.pool[..], b)
    ensures Bytes(heap.pool[..], b, MAX_PATH) == Filled(s + [c])
  {
    hide GetByte, SetByte, Stored, Bytes;
    ghost var w := heap.pool[..];
    var k := str - heap.saddr + i;
    heap.pool[k / 4] := SetByte(heap.pool[k / 4], k % 4, c);
    StoreByte(w, k, c);
    assert heap.pool[..] == w[k / 4 := SetByte(w[k / 4], k % 4, c)];
    assert k / 4 / ENTRIES == b;
    BytesStored(w, heap.pool[..], b, MAX_PATH, i, c);
    assert Filled(s)[i := c] == Filled(s + [c]);
  }

  /** The loop of pathparser_get_path_part and the slash after it */
  method CopyPart(heap: Heap, str: Word, p: seq<Byte>, start: nat, ghost b: nat) returns (pos: nat, i: nat)
    requires heap.Layout() && InPool(heap.pool[..], b) && str == heap.Address(b)
    requires 0 !in p && start <= |p| < start + MAX_PATH && Bytes(heap.pool[..], b, MAX_PATH) == Filled([])
    modifies heap.pool
    ensures SameOutside(old(heap.pool[..]), heap.pool[..], b)
    ensures i == PartLength(p[start..]) && start <= pos <= |p| && p[pos..] == Rest(p[start..])
    ensures StringAt(heap.pool[..], b, p[start..][..i])
  {
    hide Bytes, Filled;
    ghost var q := p[start..];
    pos, i := start, 0;
    while CharAt(p, pos) != SLASH && CharAt(p, pos) != 0
      invariant pos == start + i <= |p| && SLASH !in q[..i]
      invariant SameOutside(old(heap.pool[..]), heap.pool[..], b)
      invariant Bytes(heap.pool[..], b, MAX_PATH) == Filled(q[..i])
      decreases |p| - pos
    {
      assert q[..i + 1] == q[..i] + [q[i]];
      PutChar(heap, str, i, CharAt(p, pos), q[..i], b);
      pos, i := pos + 1, i + 1;
    }
    PartLengthUnique(q, i);
    FilledString(heap.pool[..], b, q[..i]);
    if CharAt(p, pos) == SLASH {
      pos := pos + 1;
    }
  }

  /** pathparser_get_path_part: null without a free block and for an empty part. */
  method GetPathPart(heap: Heap, p: seq<Byte>, start: nat) returns (str: Word, pos: nat)
    requires heap.Valid() && 0 !in p && start <= |p| < start + MAX_PATH
    modifies heap.entries, heap`live, heap.pool
    ensures heap.Valid() && start <= pos <= |p| && LiveWordsKept(old(heap.pool[..]), heap.pool[..], old(heap.live))
    ensures var n := PartLength(p[start..]);
            if old(FreeCount(heap.entries[..])) == 0 || n == 0 then
              str == 0 && heap.entries[..] == old(heap.entries[..]) && heap.live == old(heap.live)
            else
              && p[pos..] == Rest(p[start..])
              && FreeCount(heap.entries[..]) == old(FreeCount(heap.entries[..])) - 1
              && IsBlock(heap, str) && str != 0
              && heap.Block(str) !in old(heap.live) && heap.live == old(heap.live)[heap.Block(str) := 1]
              && StringAt(heap.pool[..], heap.Block(str), p[start..][..n])
  {
    hide Represents, Covered, StringAt, FreeCount, Bytes, ZeroBytes, Blocks, LowestFit;
    ghost var t, m, w := heap.entries[..], heap.live, heap.pool[..];
    pos := start;
    str := AllocPage(heap, MAX_PATH);
    if str == 0 {
      return;
    }
    ghost var b := heap.Block(str);
    ZeroedBlock(w, b);
    var i: nat;
    pos, i := CopyPart(heap, str, p, start, b);
    if i == 0 {
      KFree(heap, str);
      assert heap.live == m;
      TableUnique(t, heap.entries[..], m);
      str := 0;
    }
  }

  // ------------------------------------------------------------- the list

  /** The struct of the last node, null for the empty list */
  ghost function Last(base: nat, nodes: seq<Node>): int {
    if nodes == [] then 0 else base + nodes[|nodes| - 1].part * PAGE_SIZE
  }

  /** The new node's own two words, and the next pointer of the node before it */
  ghost predicate Linked(w: seq<Word>, w': seq<Word>, base: nat, nodes: seq<Node>, n: Node) {
    var k := n.part * ENTRIES;
    && InPool(w, n.part) && |w'| == |w|
    && w'[k] == base + n.str * PAGE_SIZE && w'[k + 1] == 0
    && forall j | 0 <= j < |w| && j != k && j != k + 1 ::
         w'[j] == if nodes != [] && j == nodes[|nodes| - 1].part * ENTRIES + 1
                  then base + n.part * PAGE_SIZE else w[j]
  }

  lemma LinkedNode(w: seq<Word>, w': seq<Word>, base: nat, nodes: seq<Node>, parts: seq<seq<Byte>>,
                   n: Node, s: seq<Byte>, i: nat)
    requires ListAt(w, base, nodes, parts) && StringAt(w, n.str, s) && Distinct(nodes + [n])
    requires Linked(w, w', base, nodes, n) && i <= |nodes|
    ensures NodeAt(w', base, (nodes + [n])[i], (parts + [s])[i], Link(base, nodes + [n], i + 1))
  {
    var nodes' := nodes + [n];
    var x, y := nodes'[i], (parts + [s])[i];
    assert i < |nodes| ==> NodeAt(w, base, nodes[i], parts[i], Link(base, nodes, i + 1));
    assert StringAt(w, x.str, y);
    assert x.str != n.part && (nodes != [] ==> x.str != nodes[|nodes| - 1].part) by {
      assert nodes'[|nodes|] == n;
      assert nodes != [] ==> nodes'[|nodes| - 1] == nodes[|nodes| - 1];
    }
    assert SameBlock(w, w', x.str);
    BytesKept(w, w', x.str, |y| + 1);
  }

  lemma LinkedList(w: seq<Word>, w': seq<Word>, base: nat, nodes: seq<Node>, parts: seq<seq<Byte>>,
                   n: Node, s: seq<Byte>)
    requires ListAt(w, base, nodes, parts) && StringAt(w, n.str, s) && Distinct(nodes + [n])
    requires Linked(w, w', base, nodes, n)
    ensures ListAt(w', base, nodes + [n], parts + [s])
  {
    hide NodeAt, Linked;
    forall i | 0 <= i <= |nodes|
      ensures NodeAt(w', base, (nodes + [n])[i], (parts + [s])[i], Link(base, nodes + [n], i + 1))
    {
      LinkedNode(w, w', base, nodes, parts, n, s, i);
    }
  }

  /** A block with a chain of its own is in no other chain. */
  lemma OwnChain(t: Table, m: Chains, m0: Chains, b: nat)
    requires Represents(t, m) && b in m && b !in m0 && forall s | s in m0 :: s in m && m[s] == m0[s]
    ensures !Covered(m0, b)
  {
    if Covered(m0, b) {
      var s :| s in m0 && s <= b < s + m0[s];
      ChainsDisjoint(t, m, s, b);
    }
  }

  lemma LinkedKeeps(w: seq<Word>, w': seq<Word>, base: nat, nodes: seq<Node>, n: Node, t: Table, m0: Chains, m: Chains)
    requires Linked(w, w', base, nodes, n) && Holding(m0, m, nodes) && Represents(t, m)
    requires !Covered(m0, n.part)
    ensures LiveWordsKept(w, w', m0)
  {
    hide Represents;
    assert (n.part * ENTRIES) / ENTRIES == n.part && (n.part * ENTRIES + 1) / ENTRIES == n.part;
    if nodes != [] {
      var b := nodes[|nodes| - 1].part;
      assert InNodes(nodes, b) && (b * ENTRIES + 1) / ENTRIES == b;
      OwnChain(t, m, m0, b);
    }
  }

  /** Chains m0 are among the chains m. */
  lemma CoveredByMore(m0: Chains, m: Chains, nodes: seq<Node>, k: int)
    requires Holding(m0, m, nodes) && Covered(m0, k)
    ensures Covered(m, k)
  {
    var s :| s in m0 && s <= k < s + m0[s];
    assert s in m && m[s] == m0[s];
  }

  lemma KeptForFewer(w: seq<Word>, w': seq<Word>, m0: Chains, m: Chains, nodes: seq<Node>)
    requires Holding(m0, m, nodes) && LiveWordsKept(w, w', m)
    ensures LiveWordsKept(w, w', m0)
  {
    hide Holding, Covered;
    forall k | 0 <= k < |w| && Covered(m0, k / ENTRIES)
      ensures w'[k] == w[k]
    {
      CoveredByMore(m0, m, nodes, k / ENTRIES);
    }
  }

  lemma LastInPool(w: seq<Word>, base: nat, nodes: seq<Node>, parts: seq<seq<Byte>>, m0: Chains, m: Chains, b: nat)
    requires ListAt(w, base, nodes, parts) && Holding(m0, m, nodes) && b !in m
    ensures nodes != [] ==> nodes[|nodes| - 1].part != b && InPool(w, nodes[|nodes| - 1].part)
  {
    if nodes != [] {
      var i := |nodes| - 1;
      assert NodeAt(w, base, nodes[i], parts[i], Link(base, nodes, i + 1));
      assert InNodes(nodes, nodes[i].part);
    }
  }

  /** A part's block is allocated after its string's: chains of m come through both. */
  lemma FreshForMore(m0: Chains, m: Chains, nodes: seq<Node>, str: nat, b: nat)
    requires Holding(m0, m, nodes) && str !in m && !Covered(m[str := 1], b)
    ensures !Covered(m, b) && !Covered(m0, b)
  {
    if Covered(m0, b) {
      CoveredByMore(m0, m, nodes, b);
    }
    if Covered(m, b) {
      CoveredStill(m, str, b);
    }
  }

  lemma CoveredStill(m: Chains, str: nat, b: nat)
    requires str !in m && Covered(m, b)
    ensures Covered(m[str := 1], b)
  {
    var s :| s in m && s <= b < s + m[s];
    assert s in m[str := 1] && m[str := 1][s] == m[s];
  }

  /** What the second allocation and the three stores make of the list and of memory. */
  lemma PartAdded(w1: seq<Word>, w2: seq<Word>, w3: seq<Word>, base: nat, t: Table, m0: Chains, m: Chains,
                  nodes: seq<Node>, parts: seq<seq<Byte>>, n: Node, s: seq<Byte>)
    requires Represents(t, m) && Holding(m0, m, nodes) && ListAt(w1, base, nodes, parts)
    requires StringAt(w1, n.str, s) && n.str !in m && n.part !in m && n.str != n.part
    requires !Covered(m[n.str := 1], n.part)
    requires SameOutside(w1, w2, n.part) && Linked(w2, w3, base, nodes, n)
    ensures ListAt(w3, base, nodes + [n], parts + [s])
    ensures LiveWordsKept(w1, w3, m0)
  {
    FreshForMore(m0, m, nodes, n.str, n.part);
    HoldingMore(m0, m, nodes, n);
    hide Represents, Covered, Holding, ListAt, Linked, NodeAt;
    KeptThroughFresh(w1, w1, w2, m, n.part);
    ListKept(w1, w2, base, nodes, parts, m0, m);
    assert SameBlock(w1, w2, n.str);
    BytesKept(w1, w2, n.str, |s| + 1);
    assert Distinct(nodes + [n]) by {
      assert Holding(m0, m[n.str := 1][n.part := 1], nodes + [n]);
      HoldingDistinct(m0, m[n.str := 1][n.part := 1], nodes + [n]);
    }
    LinkedList(w2, w3, base, nodes, parts, n, s);
    LinkedKeeps(w2, w3, base, nodes, n, t, m0, m);
  }

  lemma HoldingDistinct(m0: Chains, m: Chains, nodes: seq<Node>)
    requires Holding(m0, m, nodes)
    ensures Distinct(nodes)
  {
  }

  /** The new struct gets its string and no successor, and becomes the successor of the last. */
  method LinkPart(heap: Heap, last: Word, part: Word, str: Word, ghost nodes: seq<Node>, ghost n: Node)
    requires heap.Layout() && last == Last(heap.saddr, nodes)
    requires InPool(heap.pool[..], n.part) && part == heap.Address(n.part) && str == heap.Address(n.str)
    requires nodes != [] ==> var b := nodes[|nodes| - 1].part; b != n.part && InPool(heap.pool[..], b)
    modifies heap.pool
    ensures Linked(old(heap.pool[..]), heap.pool[..], heap.saddr, nodes, n)
  {
    heap.pool[(part - heap.saddr) / 4] := str;
    heap.pool[(part - heap.saddr) / 4 + 1] := 0;
    if last != 0 {
      heap.pool[(last - heap.saddr) / 4 + 1] := part;
    }
  }

  /** pathparser_parse_path_part: null for an empty part and without two free blocks. */
  method ParsePathPart(heap: Heap, last: Word, p: seq<Byte>, start: nat,
                       ghost m0: Chains, ghost nodes: seq<Node>, ghost parts: seq<seq<Byte>>)
    returns (part: Word, pos: nat, ghost nodes': seq<Node>)
    requires heap.Valid() && 0 !in p && start <= |p| < start + MAX_PATH
    requires Holding(m0, heap.live, nodes) && ListAt(heap.pool[..], heap.saddr, nodes, parts)
    requires last == Last(heap.saddr, nodes)
    modifies heap.entries, heap`live, heap.pool
    ensures heap.Valid() && start <= pos <= |p| && LiveWordsKept(old(heap.pool[..]), heap.pool[..], m0)
    ensures Holding(m0, heap.live, nodes')
    ensures var n := PartLength(p[start..]);
            if n == 0 || old(FreeCount(heap.entries[..])) < 2 then
              && part == 0 && nodes' == nodes && ListAt(heap.pool[..], heap.saddr, nodes, parts)
              && heap.entries[..] == old(heap.entries[..])
            else
              && p[pos..] == Rest(p[start..]) && part == Last(heap.saddr, nodes') != 0
              && nodes <= nodes' && |nodes'| == |nodes| + 1
              && ListAt(heap.pool[..], heap.saddr, nodes', parts + [p[start..][..n]])
              && FreeCount(heap.entries[..]) == old(FreeCount(heap.entries[..])) - 2
  {
    hide Represents, Covered, StringAt, FreeCount, Bytes, ZeroBytes, Holding, ListAt, SameOutside, Linked;
    ghost var t, m, w, base := heap.entries[..], heap.live, heap.pool[..], heap.saddr;
    nodes' := nodes;
    var str: Word;
    str, pos := GetPathPart(heap, p, start);
    ghost var w1, m1 := heap.pool[..], heap.live;
    ListKept(w, w1, base, nodes, parts, m0, m);
    KeptForFewer(w, w1, m0, m, nodes);
    if str == 0 {
      part := 0;
      return;
    }
    part := AllocPage(heap, 8);
    if part == 0 {
      KFree(heap, str);
      assert heap.live == m;
      TableUnique(t, heap.entries[..], m);
      return;
    }
    ghost var n := Node(heap.Block(str), heap.Block(part));
    ghost var w2 := heap.pool[..];
    LastInPool(w1, base, nodes, parts, m0, m, n.part);
    LinkPart(heap, last, part, str, nodes, n);
    PartAdded(w1, w2, heap.pool[..], base, t, m0, m, nodes, parts, n, p[start..][..PartLength(p[start..])]);
    HoldingMore(m0, m, nodes, n);
    nodes' := nodes + [n];
  }

  // ------------------------------------------------------------- the whole path

  /** A drive digit, a colon, a slash, and at most 108 characters in all */
  predicate Accepts(p: seq<Byte>) {
    3 <= |p| <= 108 && 48 <= p[0] < 58 && p[1] == 58 && p[2] == 47
  }

  /** The parts a parse with this many free blocks keeps: the root takes one block and
      every part two, and the list is cut silently where memory runs out. */
  function Kept(p: seq<Byte>, free: nat): seq<seq<Byte>>
    requires |p| >= 3
  {
    var all := Parts(p[3..]);
    if free == 0 then [] else if |all| <= (free - 1) / 2 then all else all[..(free - 1) / 2]
  }

  /** The struct path_root in block r and its list */
  ghost predicate PathAt(w: seq<Word>, base: nat, r: nat, drive: int, nodes: seq<Node>, parts: seq<seq<Byte>>) {
    && InPool(w, r) && w[r * ENTRIES] == drive && w[r * ENTRIES + 1] == Link(base, nodes, 0)
    && ListAt(w, base, nodes, parts)
  }

  /** One round of the loop of pathparser_free */
  method FreeNode(heap: Heap, part: Word, ghost n: Node, ghost s: seq<Byte>, ghost next: int) returns (nextPart: Word)
    requires heap.Valid() && NodeAt(heap.pool[..], heap.saddr, n, s, next) && part == heap.Address(n.part)
    requires n.str in heap.live && n.part in heap.live && n.part != n.str
    modifies heap.entries, heap`live
    ensures heap.Valid() && heap.live == old(heap.live) - {n.str} - {n.part} && nextPart == next
  {
    hide Represents, StringAt;
    nextPart := heap.pool[(part - heap.saddr) / 4 + 1];
    KFree(heap, heap.pool[(part - heap.saddr) / 4]);
    KFree(heap, part);
  }

  /** pathparser_free */
  method Free(heap: Heap, root: Word, ghost m0: Chains, ghost r: nat, ghost drive: int,
              ghost nodes: seq<Node>, ghost parts: seq<seq<Byte>>)
    requires heap.Valid() && root == heap.Address(r) && r !in m0
    requires PathAt(heap.pool[..], heap.saddr, r, drive, nodes, parts) && Holding(m0[r := 1], heap.live, nodes)
    modifies heap.entries, heap`live
    ensures heap.Valid() && heap.live == m0
  {
    hide Represents, Holding, NodeAt;
    ghost var i, base := 0, heap.saddr;
    var part := heap.pool[(root - heap.saddr) / 4 + 1];
    assert nodes[0..] == nodes;
    while part != 0
      invariant 0 <= i <= |nodes| && part == Link(base, nodes, i)
      invariant heap.Valid() && Holding(m0[r := 1], heap.live, nodes[i..])
      decreases |nodes| - i
    {
      HoldingLess(m0[r := 1], heap.live, nodes[i..]);
      assert nodes[i..][1..] == nodes[i + 1..];
      part := FreeNode(heap, part, nodes[i], parts[i], Link(base, nodes, i + 1));
      i := i + 1;
    }
    assert nodes[i..] == [];
    HoldingNone(m0[r := 1], heap.live);
    KFree(heap, root);
    assert m0[r := 1] - {r} == m0;
  }

  /** pathparser_create_root */
  method CreateRoot(heap: Heap, drive: Word) returns (root: Word)
    requires heap.Valid()
    modifies heap.entries, heap`live, heap.pool
    ensures heap.Valid() && LiveWordsKept(old(heap.pool[..]), heap.pool[..], old(heap.live))
    ensures root == 0 <==> old(FreeCount(heap.entries[..])) == 0
    ensures root == 0 ==> heap.entries[..] == old(heap.entries[..]) && heap.live == old(heap.live)
    ensures root != 0 ==>
              && IsBlock(heap, root) && heap.Block(root) !in old(heap.live)
              && Holding(old(heap.live)[heap.Block(root) := 1], heap.live, [])
              && PathAt(heap.pool[..], heap.saddr, heap.Block(root), drive, [], [])
              && FreeCount(heap.entries[..]) == old(FreeCount(heap.entries[..])) - 1
  {
    hide Represents, Covered, ZeroBytes, FreeCount, Holding, PathAt, LowestFit;
    ghost var w, m := heap.pool[..], heap.live;
    root := AllocPage(heap, 8);
    if root == 0 {
      return;
    }
    ghost var b, w' := heap.Block(root), heap.pool[..];
    heap.pool[(root - heap.saddr) / 4] := drive;
    heap.pool[(root - heap.saddr) / 4 + 1] := 0;
    EmptyPath(w, w', heap.pool[..], heap.saddr, m, b, drive);
  }

  lemma EmptyPath(w: seq<Word>, w': seq<Word>, w'': seq<Word>, base: nat, m: Chains, b: nat, drive: Word)
    requires InPool(w, b) && b !in m && !Covered(m, b)
    requires SameOutside(w, w', b) && w'' == w'[b * ENTRIES := drive][b * ENTRIES + 1 := 0]
    ensures LiveWordsKept(w, w'', m)
    ensures Holding(m[b := 1], m[b := 1], []) && PathAt(w'', base, b, drive, [], [])
  {
    hide Covered;
    assert (b * ENTRIES) / ENTRIES == b && (b * ENTRIES + 1) / ENTRIES == b;
    assert SameOutside(w, w'', b);
    KeptThroughFresh(w, w, w'', m, b);
  }

  /** The state of pathparser_parse once the root is allocated: the parts read so far, the
      rest of the path, and the blocks still free. */
  ghost predicate Parsing(heap: Heap, w0: seq<Word>, m0: Chains, free: int, r: nat, p: seq<Byte>, pos: nat,
                          nodes: seq<Node>, parts: seq<seq<Byte>>)
    reads heap, heap.entries, heap.pool
  {
    && heap.Valid() && r !in m0 && 3 <= pos <= |p| <= MAX_PATH && |parts| == |nodes|
    && Holding(m0[r := 1], heap.live, nodes) && ListAt(heap.pool[..], heap.saddr, nodes, parts)
    && LiveWordsKept(w0, heap.pool[..], m0)
    && FreeCount(heap.entries[..]) == free - 1 - 2 * |nodes|
    && parts + Parts(p[pos..]) == Parts(p[3..])
  }

  lemma KeptOnwards(w0: seq<Word>, w: seq<Word>, w': seq<Word>, m0: Chains, r: nat)
    requires LiveWordsKept(w0, w, m0) && LiveWordsKept(w, w', m0[r := 1]) && r !in m0
    ensures LiveWordsKept(w0, w', m0)
  {
    hide Covered;
    forall k | 0 <= k < |w0| && Covered(m0, k / ENTRIES)
      ensures w'[k] == w0[k]
    {
      CoveredStill(m0, r, k / ENTRIES);
    }
  }

  lemma MoreParts(p: seq<Byte>, start: nat, pos: nat, parts: seq<seq<Byte>>)
    requires start <= |p| && pos <= |p| && p[pos..] == Rest(p[start..]) && PartLength(p[start..]) > 0
    ensures parts + [p[start..][..PartLength(p[start..])]] + Parts(p[pos..]) == parts + Parts(p[start..])
    ensures start < pos
  {
    assert |p[pos..]| < |p[start..]|;
  }

  /** One call of pathparser_parse_path_part: another part is read, or the list is final. */
  method NextPart(heap: Heap, last: Word, p: seq<Byte>, start: nat, ghost w0: seq<Word>, ghost m0: Chains,
                  ghost free: int, ghost r: nat, ghost nodes: seq<Node>, ghost parts: seq<seq<Byte>>)
    returns (part: Word, pos: nat, ghost nodes': seq<Node>, ghost parts': seq<seq<Byte>>)
    requires 0 !in p && Parsing(heap, w0, m0, free, r, p, start, nodes, parts) && last == Last(heap.saddr, nodes)
    modifies heap.entries, heap`live, heap.pool
    ensures start <= pos <= |p|
    ensures if part == 0 then
              && nodes' == nodes && parts' == parts
              && Parsing(heap, w0, m0, free, r, p, start, nodes, parts)
              && (parts == Parts(p[3..]) || free - 1 - 2 * |nodes| < 2)
            else
              && start < pos && part == Last(heap.saddr, nodes')
              && Parsing(heap, w0, m0, free, r, p, pos, nodes', parts')
    ensures nodes <= nodes' && |nodes'| == |nodes| + (if part == 0 then 0 else 1)
    ensures LiveWordsKept(old(heap.pool[..]), heap.pool[..], m0[r := 1])
  {
    hide Represents, Holding, ListAt, FreeCount, LiveWordsKept, Parts, Rest;
    ghost var w := heap.pool[..];
    part, pos, nodes' := ParsePathPart(heap, last, p, start, m0[r := 1], nodes, parts);
    KeptOnwards(w0, w, heap.pool[..], m0, r);
    if part == 0 {
      parts' := parts;
      if PartLength(p[start..]) == 0 {
        NoMoreParts(p[start..]);
      }
    } else {
      parts' := parts + [p[start..][..PartLength(p[start..])]];
      MoreParts(p, start, pos, parts);
    }
  }

  lemma NoMoreParts(p: seq<Byte>)
    requires PartLength(p) == 0
    ensures Parts(p) == []
  {
  }

  /** pathparser_get_drive_by_path: the drive number, or an error */
  method GetDrive(p: seq<Byte>) returns (drive: int)
    requires |p| <= MAX_PATH
    ensures drive == if Accepts(p) then p[0] - DIGIT_ZERO else -EBADPATH
  {
    if !(|p| >= 3 && DIGIT_ZERO <= p[0] <= 57 && p[1] == COLON && p[2] == SLASH) {
      return -EBADPATH;
    }
    return p[0] - DIGIT_ZERO;
  }

  lemma KeptParts(p: seq<Byte>, free: nat, parts: seq<seq<Byte>>, rest: seq<seq<Byte>>)
    requires |p| >= 3 && parts + rest == Parts(p[3..]) && free - 1 - 2 * |parts| >= 0
    requires parts == Parts(p[3..]) || free - 1 - 2 * |parts| < 2
    ensures parts == Kept(p, free)
  {
  }

  /** The root's words are not among those the list's growth changes. */
  lemma RootKept(w: seq<Word>, w': seq<Word>, m0: Chains, r: nat)
    requires LiveWordsKept(w, w', m0[r := 1]) && InPool(w, r)
    ensures InPool(w', r) && w'[r * ENTRIES] == w[r * ENTRIES] && w'[r * ENTRIES + 1] == w[r * ENTRIES + 1]
  {
    BlockKept(w, w', m0[r := 1], r);
    assert r * ENTRIES / ENTRIES == r && (r * ENTRIES + 1) / ENTRIES == r;
  }

  lemma ListApart(w: seq<Word>, w': seq<Word>, base: nat, nodes: seq<Node>, parts: seq<seq<Byte>>,
                  m0: Chains, m: Chains, r: nat)
    requires ListAt(w, base, nodes, parts) && Holding(m0[r := 1], m, nodes) && SameOutside(w, w', r)
    ensures ListAt(w', base, nodes, parts)
  {
    hide NodeAt;
    assert !InNodes(nodes, r) by {
      assert r in m0[r := 1];
    }
    forall i | 0 <= i < |nodes|
      ensures NodeAt(w', base, nodes[i], parts[i], Link(base, nodes, i + 1))
    {
      assert InNodes(nodes, nodes[i].str) && InNodes(nodes, nodes[i].part);
      NodeKept(w, w', base, nodes[i], parts[i], Link(base, nodes, i + 1));
    }
  }

  lemma RootApart(t: Table, m: Chains, m0: Chains, nodes: seq<Node>, r: nat)
    requires Represents(t, m) && r !in m0 && Holding(m0[r := 1], m, nodes)
    ensures !Covered(m0, r)
  {
    hide Represents;
    OwnChain(t, m, m0, r);
  }

  /** The root gets its first part. */
  method SetFirst(heap: Heap, root: Word, part: Word, ghost w0: seq<Word>, ghost m0: Chains, ghost free: int,
                  ghost r: nat, ghost drive: int, ghost p: seq<Byte>, ghost pos: nat,
                  ghost nodes: seq<Node>, ghost parts: seq<seq<Byte>>)
    requires Parsing(heap, w0, m0, free, r, p, pos, nodes, parts)
    requires InPool(heap.pool[..], r) && root == heap.Address(r) && heap.pool[r * ENTRIES] == drive
    requires part == Link(heap.saddr, nodes, 0)
    modifies heap.pool
    ensures Parsing(heap, w0, m0, free, r, p, pos, nodes, parts)
    ensures PathAt(heap.pool[..], heap.saddr, r, drive, nodes, parts)
  {
    hide Represents, Holding, ListAt, FreeCount, Parts, Covered;
    ghost var w := heap.pool[..];
    heap.pool[(root - heap.saddr) / 4 + 1] := part;
    assert (r * ENTRIES + 1) / ENTRIES == r;
    RootApart(heap.entries[..], heap.live, m0, nodes, r);
    KeptThroughFresh(w0, w, heap.pool[..], m0, r);
    ListApart(w, heap.pool[..], heap.saddr, nodes, parts, m0, heap.live, r);
  }

  /** pathparser_parse. The list holds the parts of the path as far as memory goes; a path
      that is refused, or has no first part, leaves the heap's table as it was. */
  method Parse(heap: Heap, p: seq<Byte>) returns (root: Word, ghost nodes: seq<Node>)
    requires heap.Valid() && 0 !in p
    modifies heap.entries, heap`live, heap.pool
    ensures heap.Valid() && LiveWordsKept(old(heap.pool[..]), heap.pool[..], old(heap.live))
    ensures var free := old(FreeCount(heap.entries[..]));
            if Accepts(p) && Kept(p, free) != [] then
              && IsBlock(heap, root) && heap.Block(root) !in old(heap.live)
              && PathAt(heap.pool[..], heap.saddr, heap.Block(root), p[0] - DIGIT_ZERO, nodes, Kept(p, free))
              && Holding(old(heap.live)[heap.Block(root) := 1], heap.live, nodes)
            else
              root == 0 && heap.entries[..] == old(heap.entries[..]) && heap.live == old(heap.live)
  {
    hide Represents, Holding, ListAt, FreeCount, Covered, Parts;
    root, nodes := 0, [];
    if |p| > MAX_PATH {
      return;
    }
    var drive := GetDrive(p);
    if drive < 0 {
      return;
    }
    ghost var t, m0, w0, free := heap.entries[..], heap.live, heap.pool[..], FreeCount(heap.entries[..]);
    root := CreateRoot(heap, drive);
    if root == 0 {
      return;
    }
    ghost var r, parts: seq<seq<Byte>> := heap.Block(root), [];
    ghost var w := heap.pool[..];
    var part: Word, pos: nat;
    part, pos, nodes, parts := NextPart(heap, 0, p, 3, w0, m0, free, r, nodes, parts);
    RootKept(w, heap.pool[..], m0, r);
    if part == 0 {
      KeptParts(p, free, parts, Parts(p[3..]));
      Free(heap, root, m0, r, drive, nodes, parts);
      TableUnique(t, heap.entries[..], m0);
      root := 0;
      return;
    }
    SetFirst(heap, root, part, w0, m0, free, r, drive, p, pos, nodes, parts);
    nodes := ParseRest(heap, part, p, pos, w0, m0, free, r, drive, nodes, parts);
  }

  /** The loop of pathparser_parse, from the first part on */
  method ParseRest(heap: Heap, first: Word, p: seq<Byte>, start: nat, ghost w0: seq<Word>, ghost m0: Chains,
                   ghost free: int, ghost r: nat, ghost drive: int,
                   ghost nodes0: seq<Node>, ghost parts0: seq<seq<Byte>>)
    returns (ghost nodes: seq<Node>)
    requires 0 !in p && free > 0 && Parsing(heap, w0, m0, free, r, p, start, nodes0, parts0) && first != 0
    requires first == Last(heap.saddr, nodes0) && PathAt(heap.pool[..], heap.saddr, r, drive, nodes0, parts0)
    modifies heap.entries, heap`live, heap.pool
    ensures heap.Valid() && LiveWordsKept(w0, heap.pool[..], m0)
    ensures PathAt(heap.pool[..], heap.saddr, r, drive, nodes, Kept(p, free))
    ensures Holding(m0[r := 1], heap.live, nodes)
  {
    hide Represents, Holding, ListAt, FreeCount, Covered, Parts, Kept, LiveWordsKept, Rest;
    var part, pos := first, start;
    nodes := nodes0;
    ghost var at, parts := start, parts0;
    while part != 0
      invariant if part == 0 then parts == Kept(p, free) else at == pos && part == Last(heap.saddr, nodes)
      invariant nodes != [] && Parsing(heap, w0, m0, free, r, p, at, nodes, parts)
      invariant PathAt(heap.pool[..], heap.saddr, r, drive, nodes, parts)
      decreases |p| - at, part != 0
    {
      ghost var w := heap.pool[..];
      part, pos, nodes, parts := NextPart(heap, part, p, pos, w0, m0, free, r, nodes, parts);
      RootKept(w, heap.pool[..], m0, r);
      if part == 0 {
        KeptParts(p, free, parts, Parts(p[at..]));
      } else {
        at := pos;
      }
    }
  }

  /** A drive and parts, printed */
  function Print(drive: nat, parts: seq<seq<Byte>>): seq<Byte>
    requires drive < 10
  {
    [DIGIT_ZERO + drive, COLON, SLASH] + Join(parts)
  }

  /** Printed drive and parts are parsed back, in full if there is memory for them. */
  lemma PrintedPathParses(drive: nat, parts: seq<seq<Byte>>, free: nat)
    requires drive < 10 && forall i | 0 <= i < |parts| :: IsPart(parts[i])
    requires |Print(drive, parts)| <= MAX_PATH && free >= 1 + 2 * |parts|
    ensures var p := Print(drive, parts);
            Accepts(p) && p[0] - DIGIT_ZERO == drive && Kept(p, free) == parts
  {
    var p := Print(drive, parts);
    assert p[3..] == Join(parts);
    PartsOfJoined(parts);
  }

  /** "0:/bin/shell", byte by byte: drive 0, and the parts "bin" and "shell". */
  lemma ShellPath()
    ensures var p := [48, 58, 47, 98, 105, 110, 47, 115, 104, 101, 108, 108];
            Accepts(p) && p[0] - DIGIT_ZERO == 0 && Parts(p[3..]) == [[98, 105, 110], [115, 104, 101, 108, 108]]
  {
    var p: seq<Byte> := [48, 58, 47, 98, 105, 110, 47, 115, 104, 101, 108, 108];
    var parts: seq<seq<Byte>> := [[98, 105, 110], [115, 104, 101, 108, 108]];
    PartsOfJoined(parts);
    hide Parts, Join;
    JoinCons(parts[0], [parts[1]]);
    JoinCons(parts[1], []);
    assert [parts[1]] + [] == [parts[1]] && [parts[0]] + [parts[1]] == parts;
    assert p[3..] == parts[0] + [SLASH] + parts[1];
  }

  /** fopen's use of the parser: parse, use, free. Every block comes back. */
  method ParseAndFree(heap: Heap, p: seq<Byte>)
    requires heap.Valid() && 0 !in p
    modifies heap.entries, heap`live, heap.pool
    ensures heap.Valid() && heap.entries[..] == old(heap.entries[..]) && heap.live == old(heap.live)
    ensures LiveWordsKept(old(heap.pool[..]), heap.pool[..], old(heap.live))
  {
    hide Represents, Holding, PathAt, Covered, Kept;
    ghost var t, m, free := heap.entries[..], heap.live, FreeCount(heap.entries[..]);
    var root, nodes := Parse(heap, p);
    if root != 0 {
      Free(heap, root, m, heap.Block(root), p[0] - DIGIT_ZERO, nodes, Kept(p, free));
      TableUnique(t, heap.entries[..], m);
    }
  }
}

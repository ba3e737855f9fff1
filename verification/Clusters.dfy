/** Cluster chains of a FAT16 volume and the bytes they hold (src/fs/fat/fat16.c:360-483). */
module Clusters {
  import opened Words
  import opened Arithmetic
  import opened Streamer

  const EIO := 1
  const FAT_ENTRY_SIZE := 2

  /** The header fields and layout the read path uses; dataStart is
      root_directory.ending_sector_pos. */
  datatype Volume = Volume(disk: Disk, reservedSectors: nat, sectorsPerCluster: nat, dataStart: nat)

  /** Bytes of a cluster */
  function ClusterSize(v: Volume): nat {
    v.sectorsPerCluster * SECTOR_SIZE
  }

  /** The 16-bit little-endian entry of a cluster in the file allocation table. */
  function FatEntry(v: Volume, cluster: nat): (e: nat)
    ensures e < 0x10000
  {
    var p := v.reservedSectors * SECTOR_SIZE + cluster * FAT_ENTRY_SIZE;
    v.disk(p) + 256 * v.disk(p + 1)
  }

  /** The entries on which fat16_get_cluster_for_offset gives up. */
  predicate Stops(entry: int) {
    entry == 0xfff8 || entry == 0xffff || entry == 0xff7 || entry == 0xff0 || entry == 0xff6 || entry == 0
  }

  /** The cluster k links after `start`, or -EIO where the chain stops earlier. */
  function ClusterAt(v: Volume, start: nat, k: nat): (c: int)
    ensures c == -EIO || c >= 0
    decreases k
  {
    if k == 0 then start
    else
      var e := FatEntry(v, start);
      if Stops(e) then -EIO else ClusterAt(v, e, k - 1)
  }

  /** Position on the disk of a cluster's first byte */
  function ClusterPos(v: Volume, cluster: int): int {
    (v.dataStart + (cluster - 2) * v.sectorsPerCluster) * SECTOR_SIZE
  }

  /** Byte a of the disk is byte r of the cluster. */
  ghost predicate InCluster(v: Volume, cluster: nat, r: nat, a: int) {
    r < v.sectorsPerCluster * 512 && a == ClusterPos(v, cluster) + r
  }

  /** The clusters tile the disk from the first data sector on, in order, cluster 2 first: each byte
      from there on is one byte of one cluster. */
  lemma ClustersTile(v: Volume, a: nat)
    requires v.sectorsPerCluster > 0 && a >= v.dataStart * 512
    ensures var size, b := v.sectorsPerCluster * 512, a - v.dataStart * 512;
            && InCluster(v, 2 + b / size, b % size, a)
            && forall c: nat, r: nat | c >= 2 && InCluster(v, c, r, a) :: c == 2 + b / size && r == b % size
  {
    var size, b := v.sectorsPerCluster * 512, a - v.dataStart * 512;
    Divided(b, size);
    ClusterStart(v, b / size);
    hide ClusterPos;
    forall c: nat, r: nat | c >= 2 && InCluster(v, c, r, a)
      ensures c == 2 + b / size && r == b % size
    {
      ClusterStart(v, c - 2);
      Quotient(b, size, c - 2, r);
    }
  }

  lemma ClusterStart(v: Volume, k: nat)
    ensures ClusterPos(v, 2 + k) == v.dataStart * 512 + k * (v.sectorsPerCluster * 512)
    ensures ClusterPos(v, 2) == v.dataStart * 512
  {
    Associate(k, v.sectorsPerCluster, 512);
    SumOfRows(v.dataStart, k * v.sectorsPerCluster, 512);
  }

  /** An entry is read back as it is written, low byte first, at two bytes an entry behind the
      reserved sectors. */
  lemma FatEntryStored(v: Volume, cluster: nat, entry: nat)
    requires entry < 0x10000
    requires v.disk(v.reservedSectors * 512 + 2 * cluster) == entry % 256
    requires v.disk(v.reservedSectors * 512 + 2 * cluster + 1) == entry / 256
    ensures FatEntry(v, cluster) == entry
  {
  }

  /** The path leads from each cluster to the one its entry in the table names, low byte first, and
      none of these is free, bad, reserved or the end. */
  ghost predicate Path(v: Volume, path: seq<nat>) {
    |path| > 1 ==> Linked(v, path[0], path[1]) && Path(v, path[1..])
  }

  predicate Linked(v: Volume, c: nat, next: nat) {
    var p := v.reservedSectors * 512 + 2 * c;
    next == v.disk(p) + 0x100 * v.disk(p + 1)
    && next !in {0, 0xff0, 0xff6, 0xff7, 0xfff8, 0xffff}
  }

  lemma LinkedIff(v: Volume, c: nat, next: nat)
    ensures Linked(v, c, next) <==> next == FatEntry(v, c) && !Stops(next)
  {
  }

  /** Walking k links ends where the only path of k links ends, and fails exactly if there is none. */
  lemma {:induction false} ClusterAtIff(v: Volume, start: nat, k: nat) returns (path: seq<nat>)
    ensures ClusterAt(v, start, k) >= 0 ==>
              |path| == k + 1 && path[0] == start && path[k] == ClusterAt(v, start, k) && Path(v, path)
    ensures ClusterAt(v, start, k) < 0 ==> forall q: seq<nat> | |q| == k + 1 && q[0] == start :: !Path(v, q)
    decreases k
  {
    hide FatEntry, Stops, Linked;
    if k == 0 {
      path := [start];
    } else {
      var next := FatEntry(v, start);
      LinkedIff(v, start, next);
      var rest := ClusterAtIff(v, next, k - 1);
      path := [start] + rest;
      assert path[1..] == rest;
      if ClusterAt(v, start, k) < 0 {
        forall q: seq<nat> | |q| == k + 1 && q[0] == start
          ensures !Path(v, q)
        {
          LinkedIff(v, start, q[1]);
        }
      }
    }
  }

  /** The chain has at least n links, all inside the disk. */
  ghost predicate Chain(v: Volume, start: nat, n: nat) {
    && v.sectorsPerCluster > 0
    && forall k | 0 <= k < n :: ClusterAt(v, start, k) >= 0 && ClusterPos(v, ClusterAt(v, start, k)) >= 0
  }

  lemma {:induction false} ChainTail(v: Volume, start: nat, n: nat)
    requires Chain(v, start, n) && n > 1
    ensures !Stops(FatEntry(v, start)) && Chain(v, FatEntry(v, start), n - 1)
  {
    assert ClusterAt(v, start, 1) >= 0;
    forall k | 0 <= k < n - 1
      ensures ClusterAt(v, FatEntry(v, start), k) == ClusterAt(v, start, k + 1)
    {
    }
  }

  /** The concatenation of the first n clusters on the chain: the file. */
  ghost function Content(v: Volume, start: nat, n: nat): (s: seq<Byte>)
    requires Chain(v, start, n)
    decreases n
  {
    if n == 0 then []
    else
      assert ClusterAt(v, start, 0) == start;
      var first := Slice(v.disk, ClusterPos(v, start), ClusterSize(v));
      if n == 1 then first
      else
        ChainTail(v, start, n);
        first + Content(v, FatEntry(v, start), n - 1)
  }

  /** The first cluster, and the file behind it */
  lemma ContentFirst(v: Volume, start: nat, n: nat)
    requires Chain(v, start, n) && n > 0
    ensures ClusterAt(v, start, 0) == start && ClusterPos(v, start) >= 0
    ensures var first := Slice(v.disk, ClusterPos(v, start), ClusterSize(v));
            && (n == 1 ==> Content(v, start, n) == first)
            && (n > 1 ==> Chain(v, FatEntry(v, start), n - 1)
                          && Content(v, start, n) == first + Content(v, FatEntry(v, start), n - 1))
  {
    assert ClusterAt(v, start, 0) == start;
    if n > 1 {
      ChainTail(v, start, n);
    }
    hide ClusterAt, ClusterPos, ClusterSize, FatEntry, Slice;
  }

  lemma {:induction false} ContentLength(v: Volume, start: nat, n: nat)
    requires Chain(v, start, n)
    ensures |Content(v, start, n)| == n * ClusterSize(v)
    decreases n
  {
    if n > 0 {
      ContentFirst(v, start, n);
      hide Content, Chain, ClusterAt, ClusterPos, ClusterSize, FatEntry;
      Rows(n, ClusterSize(v));
      if n > 1 {
        ContentLength(v, FatEntry(v, start), n - 1);
      }
    }
  }

  /** Byte r of cluster k of the file is byte r of the k-th cluster on the chain. */
  lemma {:induction false} ContentAt(v: Volume, start: nat, n: nat, k: nat, r: nat)
    requires Chain(v, start, n) && k < n && r < ClusterSize(v)
    ensures k * ClusterSize(v) + r < |Content(v, start, n)|
    ensures ClusterPos(v, ClusterAt(v, start, k)) >= 0
    ensures Content(v, start, n)[k * ClusterSize(v) + r] == v.disk(ClusterPos(v, ClusterAt(v, start, k)) + r)
    decreases n
  {
    ContentFirst(v, start, n);
    hide Content, Chain, ClusterPos, ClusterSize;
    if k > 0 {
      NextCluster(v, start, n, k);
      hide ClusterAt, FatEntry;
      ContentAt(v, FatEntry(v, start), n - 1, k - 1, r);
      Rows(k, ClusterSize(v));
      Product(k - 1, ClusterSize(v));
    }
  }

  /** So it is this byte of the disk. */
  lemma ContentOnDisk(v: Volume, start: nat, n: nat, k: nat, r: nat)
    requires Chain(v, start, n) && k < n && r < v.sectorsPerCluster * 512
    ensures var at := v.dataStart * 512 + (ClusterAt(v, start, k) - 2) * (v.sectorsPerCluster * 512) + r;
            var o := k * (v.sectorsPerCluster * 512) + r;
            at >= 0 && o < |Content(v, start, n)| && Content(v, start, n)[o] == v.disk(at)
  {
    var c := ClusterAt(v, start, k);
    assert ClusterSize(v) == v.sectorsPerCluster * 512;
    ContentAt(v, start, n, k, r);
    Associate(c - 2, v.sectorsPerCluster, 512);
    SumOfRows(v.dataStart, (c - 2) * v.sectorsPerCluster, 512);
    hide Content, Chain, ClusterAt;
  }

  lemma NextCluster(v: Volume, start: nat, n: nat, k: nat)
    requires Chain(v, start, n) && 0 < k < n
    ensures ClusterAt(v, start, k) == ClusterAt(v, FatEntry(v, start), k - 1)
  {
    ChainTail(v, start, n);
  }

  // -------------------------------------------------------------- reading

  datatype Option<T> = None | Some(value: T)

  /** Every cluster that a read of `total` bytes from cluster q of the chain goes to lies on the disk. */
  ghost predicate OnDisk(v: Volume, start: nat, q: nat, total: nat) {
    && v.sectorsPerCluster > 0
    && forall k: nat | q <= k && (k == q || (k - q) * ClusterSize(v) < total) && ClusterAt(v, start, k) >= 0 ::
         ClusterPos(v, ClusterAt(v, start, k)) >= 0
  }

  lemma OnDiskFirst(v: Volume, start: nat, q: nat, total: nat)
    requires OnDisk(v, start, q, total)
    ensures ClusterAt(v, start, q) >= 0 ==> ClusterPos(v, ClusterAt(v, start, q)) >= 0
  {
    hide ClusterAt, ClusterPos, ClusterSize;
  }

  lemma OnDiskRest(v: Volume, start: nat, q: nat, total: nat)
    requires OnDisk(v, start, q, total) && ClusterSize(v) < total
    ensures OnDisk(v, start, q + 1, total - ClusterSize(v))
  {
    hide ClusterAt, ClusterPos, ClusterSize;
    var size := ClusterSize(v);
    forall k: nat | q + 1 <= k && (k == q + 1 || (k - q - 1) * size < total - size) && ClusterAt(v, start, k) >= 0
      ensures ClusterPos(v, ClusterAt(v, start, k)) >= 0
    {
      Rows(k - q, size);
      assert k == q + 1 ==> (k - q) * size == size;
    }
  }

  /** What fat16_read_internal_from_stream reads from byte r of cluster q on, None for an
      error: at most a cluster's length from there, wherever in the cluster r is, and
      then on from the same place in the next cluster of the chain. */
  ghost function RawRead(v: Volume, start: nat, q: nat, r: nat, total: nat): (data: Option<seq<Byte>>)
    requires OnDisk(v, start, q, total)
    ensures data.Some? ==> |data.value| == total
    decreases total
  {
    var size, cluster := ClusterSize(v), ClusterAt(v, start, q);
    OnDiskFirst(v, start, q, total);
    if cluster < 0 then None
    else if total <= size then Some(Slice(v.disk, ClusterPos(v, cluster) + r, total))
    else
      OnDiskRest(v, start, q, total);
      Prepended(Slice(v.disk, ClusterPos(v, cluster) + r, size), RawRead(v, start, q + 1, r, total - size))
  }

  function Prepended(data: seq<Byte>, more: Option<seq<Byte>>): (r: Option<seq<Byte>>)
    ensures r.Some? <==> more.Some?
    ensures r.Some? ==> r.value == data + more.value
  {
    match more case None => None case Some(rest) => Some(data + rest)
  }

  lemma RawReadStep(v: Volume, start: nat, q: nat, r: nat, total: nat)
    requires OnDisk(v, start, q, total)
    ensures var size, cluster := ClusterSize(v), ClusterAt(v, start, q);
            && (cluster < 0 ==> RawRead(v, start, q, r, total) == None)
            && (cluster >= 0 ==> ClusterPos(v, cluster) >= 0)
            && (cluster >= 0 && total <= size ==>
                  RawRead(v, start, q, r, total) == Some(Slice(v.disk, ClusterPos(v, cluster) + r, total)))
            && (total > size ==> OnDisk(v, start, q + 1, total - size))
            && (cluster >= 0 && total > size ==>
                  RawRead(v, start, q, r, total)
                  == Prepended(Slice(v.disk, ClusterPos(v, cluster) + r, size),
                               RawRead(v, start, q + 1, r, total - size)))
  {
    hide ClusterAt, ClusterPos, ClusterSize, OnDisk, Slice;
    OnDiskFirst(v, start, q, total);
    if total > ClusterSize(v) {
      OnDiskRest(v, start, q, total);
    }
  }

  /** Where byte i of the j-th piece of a read at cluster q, byte r, is read from ... */
  function ReadAddress(v: Volume, start: nat, q: nat, r: nat, j: nat, i: nat): int {
    ClusterPos(v, ClusterAt(v, start, q + j)) + r + i
  }

  /** ... and where the file has it. */
  function FileAddress(v: Volume, start: nat, q: nat, r: nat, j: nat, i: nat): int {
    if r + i < ClusterSize(v) then ClusterPos(v, ClusterAt(v, start, q + j)) + (r + i)
    else ClusterPos(v, ClusterAt(v, start, q + j + 1)) + (r + i - ClusterSize(v))
  }

  /** The read takes byte i of its j-th piece from there, on every chain and disk. */
  lemma {:induction false} ReadTakes(v: Volume, start: nat, q: nat, r: nat, total: nat, j: nat, i: nat, k: nat)
    requires OnDisk(v, start, q, total) && RawRead(v, start, q, r, total).Some?
    requires i < ClusterSize(v) && k == j * ClusterSize(v) + i < total
    ensures ReadAddress(v, start, q, r, j, i) >= 0
    ensures RawRead(v, start, q, r, total).value[k] == v.disk(ReadAddress(v, start, q, r, j, i))
    decreases j
  {
    hide RawRead, OnDisk, ClusterAt, ClusterPos, ClusterSize;
    RawReadStep(v, start, q, r, total);
    var size := ClusterSize(v);
    if j > 0 {
      Rows(j, size);
      Product(j - 1, size);
      ReadTakes(v, start, q + 1, r, total - size, j - 1, i, k - size);
      assert q + 1 + (j - 1) == q + j;
    } else {
      assert q + j == q && k == i;
    }
  }

  /** The file has byte k behind the start of the read there. */
  lemma FileHas(v: Volume, start: nat, n: nat, q: nat, r: nat, j: nat, i: nat, k: nat)
    requires Chain(v, start, n) && r < ClusterSize(v) && i < ClusterSize(v)
    requires k == q * ClusterSize(v) + r + j * ClusterSize(v) + i < n * ClusterSize(v)
    ensures k < |Content(v, start, n)| && FileAddress(v, start, q, r, j, i) >= 0
    ensures Content(v, start, n)[k] == v.disk(FileAddress(v, start, q, r, j, i))
  {
    hide Chain, ClusterAt, ClusterPos, ClusterSize, Content;
    var size := ClusterSize(v);
    SumOfRows(q, j, size);
    if r + i < size {
      Below(q + j, n, size);
      ContentAt(v, start, n, q + j, r + i);
    } else {
      Rows(q + j + 1, size);
      Below(q + j + 1, n, size);
      ContentAt(v, start, n, q + j + 1, r + i - size);
    }
  }

  ghost predicate RightAddresses(v: Volume, start: nat, q: nat, r: nat, total: nat) {
    forall j: nat, i: nat | i < ClusterSize(v) && j * ClusterSize(v) + i < total ::
      ReadAddress(v, start, q, r, j, i) == FileAddress(v, start, q, r, j, i)
  }

  /** Every cluster boundary inside the read lies between neighbouring clusters. */
  ghost predicate Contiguous(v: Volume, start: nat, q: nat, r: nat, total: nat) {
    forall j: nat | j * ClusterSize(v) + (ClusterSize(v) - r) < total ::
      ClusterAt(v, start, q + j + 1) == ClusterAt(v, start, q + j) + 1
  }

  lemma NeighboursGiveRightAddresses(v: Volume, start: nat, q: nat, r: nat, total: nat)
    requires v.sectorsPerCluster > 0 && r < ClusterSize(v)
    requires r == 0 || Contiguous(v, start, q, r, total)
    ensures RightAddresses(v, start, q, r, total)
  {
    hide ClusterAt, ClusterPos, ClusterSize;
    var size := ClusterSize(v);
    forall j: nat, i: nat | i < size && j * size + i < total
      ensures ReadAddress(v, start, q, r, j, i) == FileAddress(v, start, q, r, j, i)
    {
      if r + i >= size {
        assert j * size + (size - r) < total;
        Neighbours(v, ClusterAt(v, start, q + j), ClusterAt(v, start, q + j + 1));
      }
    }
  }

  lemma Neighbours(v: Volume, c: int, c': int)
    requires v.sectorsPerCluster > 0
    ensures ClusterPos(v, c) + ClusterSize(v) == ClusterPos(v, c') <==> c' == c + 1
  {
    var s := v.sectorsPerCluster;
    Rows(c - 1, s);
    if c' < c + 1 {
      Multiple(c' - 2, c - 1, s);
    } else if c + 1 < c' {
      Multiple(c - 1, c' - 2, s);
    }
  }

  /** A read inside one cluster crosses nothing. */
  lemma WithinClusterIsContiguous(v: Volume, start: nat, q: nat, r: nat, total: nat)
    requires r + total <= ClusterSize(v)
    ensures Contiguous(v, start, q, r, total)
  {
    hide ClusterAt, ClusterSize;
    forall j: nat
      ensures j * ClusterSize(v) + (ClusterSize(v) - r) >= total
    {
      Product(j, ClusterSize(v));
    }
  }

  lemma ChainOnDisk(v: Volume, start: nat, n: nat, q: nat, total: nat)
    requires Chain(v, start, n) && q < n && q * ClusterSize(v) + total <= n * ClusterSize(v)
    ensures OnDisk(v, start, q, total)
  {
    hide ClusterAt, ClusterPos, ClusterSize;
    forall k: nat | q <= k && (k == q || (k - q) * ClusterSize(v) < total) && ClusterAt(v, start, k) >= 0
      ensures ClusterPos(v, ClusterAt(v, start, k)) >= 0
    {
      SumOfRows(q, k - q, ClusterSize(v));
      if k > q {
        Below(k, n, ClusterSize(v));
      }
    }
  }

  /** A read inside the chain meets no error. */
  lemma {:induction false} ReadInChain(v: Volume, start: nat, n: nat, q: nat, r: nat, total: nat)
    requires Chain(v, start, n) && q < n && q * ClusterSize(v) + total <= n * ClusterSize(v)
    ensures OnDisk(v, start, q, total) && RawRead(v, start, q, r, total).Some?
    decreases total
  {
    ChainOnDisk(v, start, n, q, total);
    assert ClusterAt(v, start, q) >= 0;
    hide Chain, ClusterAt, ClusterSize, ClusterPos, OnDisk, RawRead;
    RawReadStep(v, start, q, r, total);
    var size := ClusterSize(v);
    if total > size {
      Rows(q + 1, size);
      Below(q + 1, n, size);
      ReadInChain(v, start, n, q + 1, r, total - size);
    }
  }

  /** The read gives exactly the slice of the file, whatever the chain and the disk. */
  lemma ReadRefinesContent(v: Volume, start: nat, n: nat, q: nat, r: nat, total: nat, o: nat)
    requires Chain(v, start, n) && q < n && r < ClusterSize(v)
    requires o == q * ClusterSize(v) + r && o + total <= n * ClusterSize(v)
    requires r == 0 || Contiguous(v, start, q, r, total)
    ensures OnDisk(v, start, q, total) && o + total <= |Content(v, start, n)|
    ensures RawRead(v, start, q, r, total) == Some(Content(v, start, n)[o..o + total])
  {
    hide ClusterSize, OnDisk, RawRead, Content, ClusterAt, ClusterPos, RightAddresses;
    ContentLength(v, start, n);
    ReadInChain(v, start, n, q, r, total);
    NeighboursGiveRightAddresses(v, start, q, r, total);
    hide Chain, Contiguous;
    var data, file := RawRead(v, start, q, r, total).value, Content(v, start, n)[o..o + total];
    forall k | 0 <= k < total
      ensures data[k] == file[k]
    {
      ByteRefines(v, start, n, q, r, total, o, k);
    }
    assert data == file;
  }

  lemma ByteRefines(v: Volume, start: nat, n: nat, q: nat, r: nat, total: nat, o: nat, k: nat)
    requires Chain(v, start, n) && r < ClusterSize(v) && k < total
    requires o == q * ClusterSize(v) + r && o + total <= n * ClusterSize(v)
    requires RightAddresses(v, start, q, r, total)
    requires OnDisk(v, start, q, total) && RawRead(v, start, q, r, total).Some?
    ensures o + k < |Content(v, start, n)|
    ensures RawRead(v, start, q, r, total).value[k] == Content(v, start, n)[o + k]
  {
    hide Chain, ClusterSize, OnDisk, RawRead, Content, ReadAddress, FileAddress;
    var size := ClusterSize(v);
    var j, i := k / size, k % size;
    Divided(k, size);
    assert ReadAddress(v, start, q, r, j, i) == FileAddress(v, start, q, r, j, i);
    ReadTakes(v, start, q, r, total, j, i, k);
    FileHas(v, start, n, q, r, j, i, o + k);
  }

  // ------------------------------------------------ when the read is right

  /** v' has other bytes on its disk, but the same layout and the same chain. */
  ghost predicate SameChain(v: Volume, v': Volume, start: nat, n: nat) {
    && v' == v.(disk := v'.disk)
    && forall k | 0 <= k < n :: ClusterAt(v', start, k) == ClusterAt(v, start, k)
  }

  /** Whatever is in the clusters of the chain, the read gives the slice of the file. */
  ghost predicate RightOnEveryDisk(v: Volume, start: nat, n: nat, q: nat, r: nat, total: nat, o: nat) {
    forall v': Volume | SameChain(v, v', start, n) && Chain(v', start, n) && OnDisk(v', start, q, total)
                        && o + total <= |Content(v', start, n)| ::
      RawRead(v', start, q, r, total) == Some(Content(v', start, n)[o..o + total])
  }

  /** The allocation table's entries for the chain lie outside the chain's clusters. */
  ghost predicate EntriesApart(v: Volume, start: nat, n: nat) {
    forall k, k' | 0 <= k < n && 0 <= k' < n ::
      var p := v.reservedSectors * SECTOR_SIZE + ClusterAt(v, start, k) * FAT_ENTRY_SIZE;
      var c := ClusterPos(v, ClusterAt(v, start, k'));
      p + FAT_ENTRY_SIZE <= c || c + ClusterSize(v) <= p
  }

  function EditedByte(disk: Disk, at: nat, b: Byte, p: nat): Byte {
    if p == at then b else disk(p)
  }

  /** The disk with one byte changed */
  function Edited(v: Volume, at: nat, b: Byte): Volume {
    v.(disk := (p: nat) => EditedByte(v.disk, at, b, p))
  }

  lemma EditedDiffers(v: Volume, at: nat, from: nat)
    requires from != at
    ensures var v' := Edited(v, at, (v.disk(from) + 1) % 256); v'.disk(from) != v'.disk(at)
  {
  }

  lemma EntryKept(v: Volume, at: nat, b: Byte, cluster: nat)
    requires var p := v.reservedSectors * SECTOR_SIZE + cluster * FAT_ENTRY_SIZE; at < p || p + FAT_ENTRY_SIZE <= at
    ensures FatEntry(Edited(v, at, b), cluster) == FatEntry(v, cluster)
  {
  }

  lemma {:induction false} EditedChain(v: Volume, at: nat, b: Byte, start: nat, k: nat)
    requires forall i | 0 <= i < k && ClusterAt(v, start, i) >= 0 ::
               FatEntry(Edited(v, at, b), ClusterAt(v, start, i)) == FatEntry(v, ClusterAt(v, start, i))
    ensures ClusterAt(Edited(v, at, b), start, k) == ClusterAt(v, start, k)
    decreases k
  {
    var v' := Edited(v, at, b);
    hide Edited, FatEntry;
    if k > 0 {
      assert ClusterAt(v, start, 0) == start;
      var e := FatEntry(v, start);
      if !Stops(e) {
        forall i | 0 <= i < k - 1 && ClusterAt(v, e, i) >= 0
          ensures FatEntry(v', ClusterAt(v, e, i)) == FatEntry(v, ClusterAt(v, e, i))
        {
          assert ClusterAt(v, start, i + 1) == ClusterAt(v, e, i);
        }
        EditedChain(v, at, b, e, k - 1);
      }
    }
  }

  /** Changing the first byte of a cluster of the chain leaves the chain. */
  lemma EditedSameChain(v: Volume, b: Byte, start: nat, n: nat, k: nat)
    requires Chain(v, start, n) && EntriesApart(v, start, n) && k < n
    ensures var v' := Edited(v, ClusterPos(v, ClusterAt(v, start, k)), b);
            SameChain(v, v', start, n) && Chain(v', start, n)
  {
    var at := ClusterPos(v, ClusterAt(v, start, k));
    var v' := Edited(v, at, b);
    assert v' == v.(disk := v'.disk) && ClusterSize(v) > 0;
    assert forall c :: ClusterPos(v', c) == ClusterPos(v, c);
    hide ClusterPos, ClusterSize, ClusterAt, FatEntry, Edited;
    forall i | 0 <= i < n
      ensures FatEntry(v', ClusterAt(v, start, i)) == FatEntry(v, ClusterAt(v, start, i))
    {
      EntryKept(v, at, b, ClusterAt(v, start, i));
    }
    hide EntriesApart;
    forall i | 0 <= i < n
      ensures ClusterAt(v', start, i) == ClusterAt(v, start, i)
    {
      EditedChain(v, at, b, start, i);
    }
  }

  /** Across clusters that are no neighbours some disk is misread. */
  lemma MisreadSomewhere(v: Volume, start: nat, n: nat, q: nat, r: nat, total: nat, o: nat, j: nat)
    requires Chain(v, start, n) && EntriesApart(v, start, n) && q < n && 0 < r < ClusterSize(v)
    requires o == q * ClusterSize(v) + r && o + total <= n * ClusterSize(v)
    requires j * ClusterSize(v) + (ClusterSize(v) - r) < total
    requires ClusterAt(v, start, q + j + 1) != ClusterAt(v, start, q + j) + 1
    ensures !RightOnEveryDisk(v, start, n, q, r, total, o)
  {
    var size := ClusterSize(v);
    Product(j, size);
    var i, k := size - r, j * size + (size - r);
    ApartAddresses(v, start, n, q, r, total, o, j, i, k);
    hide ClusterSize, ClusterAt, ClusterPos, Content, RawRead, OnDisk, RightOnEveryDisk, Chain, EntriesApart, SameChain,
         ReadAddress, FileAddress;
    var from, at := ReadAddress(v, start, q, r, j, i), FileAddress(v, start, q, r, j, i);
    var b := (v.disk(from) + 1) % 256;
    EditedDiffers(v, at, from);
    hide Edited;
    EditedSameChain(v, b, start, n, q + j + 1);
    OneByteMisread(v, Edited(v, at, b), start, n, q, r, total, o, j, i, k);
  }

  /** The place read from and the place of the file's byte differ. */
  lemma ApartAddresses(v: Volume, start: nat, n: nat, q: nat, r: nat, total: nat, o: nat, j: nat, i: nat, k: nat)
    requires Chain(v, start, n) && q < n && 0 < r < ClusterSize(v) && i == ClusterSize(v) - r
    requires o == q * ClusterSize(v) + r && o + total <= n * ClusterSize(v)
    requires k == j * ClusterSize(v) + i < total
    requires ClusterAt(v, start, q + j + 1) != ClusterAt(v, start, q + j) + 1
    ensures q + j + 1 < n && FileAddress(v, start, q, r, j, i) == ClusterPos(v, ClusterAt(v, start, q + j + 1))
    ensures ReadAddress(v, start, q, r, j, i) >= 0 && FileAddress(v, start, q, r, j, i) >= 0
    ensures ReadAddress(v, start, q, r, j, i) != FileAddress(v, start, q, r, j, i)
  {
    ChainHasClusters(v, start, n);
    hide Chain, ClusterSize, ClusterAt, ClusterPos, Content, RawRead, OnDisk;
    var size := ClusterSize(v);
    SumOfRows(q, j, size);
    Rows(q + j + 1, size);
    Below(q + j + 1, n, size);
    Neighbours(v, ClusterAt(v, start, q + j), ClusterAt(v, start, q + j + 1));
    FileHas(v, start, n, q, r, j, i, o + k);
    ReadInChain(v, start, n, q, r, total);
    ReadTakes(v, start, q, r, total, j, i, k);
  }

  lemma ChainHasClusters(v: Volume, start: nat, n: nat)
    requires Chain(v, start, n)
    ensures v.sectorsPerCluster > 0
  {
  }

  lemma OneByteMisread(v: Volume, v': Volume, start: nat, n: nat, q: nat, r: nat, total: nat, o: nat,
                       j: nat, i: nat, k: nat)
    requires SameChain(v, v', start, n) && Chain(v', start, n) && q + j + 1 < n && r < ClusterSize(v)
    requires o == q * ClusterSize(v) + r && o + total <= n * ClusterSize(v)
    requires i < ClusterSize(v) && k == j * ClusterSize(v) + i < total
    requires ReadAddress(v, start, q, r, j, i) >= 0 && FileAddress(v, start, q, r, j, i) >= 0
    requires v'.disk(ReadAddress(v, start, q, r, j, i)) != v'.disk(FileAddress(v, start, q, r, j, i))
    ensures !RightOnEveryDisk(v, start, n, q, r, total, o)
  {
    assert ClusterSize(v') == ClusterSize(v);
    assert ReadAddress(v', start, q, r, j, i) == ReadAddress(v, start, q, r, j, i);
    assert FileAddress(v', start, q, r, j, i) == FileAddress(v, start, q, r, j, i);
    hide ClusterSize, ClusterAt, ClusterPos, Content, Chain, RawRead, OnDisk, ReadAddress, FileAddress;
    ReadInChain(v', start, n, q, r, total);
    ReadTakes(v', start, q, r, total, j, i, k);
    FileHas(v', start, n, q, r, j, i, o + k);
    ContentLength(v', start, n);
    assert Content(v', start, n)[o..o + total][k] == Content(v', start, n)[o + k];
  }

  /** A read gives the slice of the file, whatever is in it, exactly when it starts on a cluster
      boundary or the clusters it crosses between are neighbours on the disk. */
  lemma RightIffAlignedOrContiguous(v: Volume, start: nat, n: nat, q: nat, r: nat, total: nat, o: nat)
    requires Chain(v, start, n) && EntriesApart(v, start, n) && q < n && r < ClusterSize(v)
    requires o == q * ClusterSize(v) + r && o + total <= n * ClusterSize(v)
    ensures RightOnEveryDisk(v, start, n, q, r, total, o) <==> r == 0 || Contiguous(v, start, q, r, total)
  {
    hide ClusterAt, Chain, EntriesApart, RawRead, Content, OnDisk;
    if r == 0 || Contiguous(v, start, q, r, total) {
      forall v': Volume | SameChain(v, v', start, n) && Chain(v', start, n)
        ensures OnDisk(v', start, q, total) && o + total <= |Content(v', start, n)|
        ensures RawRead(v', start, q, r, total) == Some(Content(v', start, n)[o..o + total])
      {
        SameContiguous(v, v', start, n, q, r, total, o);
        ReadRefinesContent(v', start, n, q, r, total, o);
      }
    } else {
      var j: nat :| j * ClusterSize(v) + (ClusterSize(v) - r) < total
                    && ClusterAt(v, start, q + j + 1) != ClusterAt(v, start, q + j) + 1;
      MisreadSomewhere(v, start, n, q, r, total, o, j);
    }
  }

  lemma SameContiguous(v: Volume, v': Volume, start: nat, n: nat, q: nat, r: nat, total: nat, o: nat)
    requires SameChain(v, v', start, n) && r < ClusterSize(v)
    requires o == q * ClusterSize(v) + r && o + total <= n * ClusterSize(v)
    ensures ClusterSize(v') == ClusterSize(v)
    ensures Contiguous(v, start, q, r, total) ==> Contiguous(v', start, q, r, total)
  {
    assert ClusterSize(v') == ClusterSize(v);
    hide ClusterSize, ClusterAt;
    forall j: nat | j * ClusterSize(v) + (ClusterSize(v) - r) < total
      ensures q + j + 1 < n
    {
      SumOfRows(q, j, ClusterSize(v));
      Rows(q + j + 1, ClusterSize(v));
      Below(q + j + 1, n, ClusterSize(v));
    }
  }

  // ----------------------------------------------- a misread on a real disk

  /** Two clusters of one sector, numbers 2 and 5; every byte is 0 but the first of cluster 5. */
  function FragmentedByte(p: nat): Byte {
    if p == 516 then 5            // the FAT entry of cluster 2
    else if p == 103 * 512 then 1 // the first byte of cluster 5
    else 0
  }

  /** 512 bytes from offset 1: the last one is on cluster 5, but it is read behind cluster 2. */
  lemma UnalignedReadMisses()
    ensures var v := Volume(FragmentedByte, 1, 1, 100);
            && Chain(v, 2, 2) && OnDisk(v, 2, 0, 512)
            && RawRead(v, 2, 0, 1, 512).Some?
            && RawRead(v, 2, 0, 1, 512).value[511] == 0
            && |Content(v, 2, 2)| == 1024 && Content(v, 2, 2)[1..513][511] == 1
  {
    var v := Volume(FragmentedByte, 1, 1, 100);
    assert FatEntry(v, 2) == 5;
    assert ClusterAt(v, 2, 1) == 5 by { assert ClusterAt(v, 5, 0) == 5; }
    assert FatEntry(v, 5) == 0;
    forall k: nat | k >= 2
      ensures ClusterAt(v, 2, k) < 0
    {
      assert ClusterAt(v, 5, k - 1) < 0;
    }
    ContentLength(v, 2, 2);
    ContentAt(v, 2, 2, 1, 0);
  }
}

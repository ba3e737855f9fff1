/** The FAT16 read path of src/fs/fat/fat16.c: methods over two seekable streams. */
module Fat16 {
  import opened Words
  import opened Arithmetic
  import opened Streamer
  import opened Clusters

  // --------------------------------------------------------------- elements

  /** Which cluster of the chain a file offset falls into ... */
  function IndexOf(v: Volume, offset: nat): nat
    requires v.sectorsPerCluster > 0
  {
    offset / ClusterSize(v)
  }

  /** ... and where in that cluster. */
  function PlaceIn(v: Volume, offset: nat): nat
    requires v.sectorsPerCluster > 0
  {
    offset % ClusterSize(v)
  }

  /** The read of `total` bytes at a file offset can be made. */
  ghost predicate OnDiskAt(v: Volume, start: nat, offset: nat, total: nat) {
    v.sectorsPerCluster > 0 && OnDisk(v, start, IndexOf(v, offset), total)
  }

  /** fat16_read_internal_from_stream at a file offset */
  ghost function ReadAt(v: Volume, start: nat, offset: nat, total: nat): (r: Option<seq<Byte>>)
    requires OnDiskAt(v, start, offset, total)
    ensures r.Some? ==> |r.value| == total
  {
    RawRead(v, start, IndexOf(v, offset), PlaceIn(v, offset), total)
  }

  lemma ReadAtIs(v: Volume, start: nat, offset: nat, total: nat, q: nat, r: nat)
    requires v.sectorsPerCluster > 0 && r < ClusterSize(v) && offset == q * ClusterSize(v) + r
    requires OnDisk(v, start, q, total)
    ensures OnDiskAt(v, start, offset, total) && ReadAt(v, start, offset, total) == RawRead(v, start, q, r, total)
  {
    Quotient(offset, ClusterSize(v), q, r);
  }

  lemma ReadAtStep(v: Volume, start: nat, offset: nat, total: nat)
    requires OnDiskAt(v, start, offset, total)
    ensures var size := ClusterSize(v);
            var cluster, place := ClusterAt(v, start, IndexOf(v, offset)), PlaceIn(v, offset);
            && (cluster < 0 ==> ReadAt(v, start, offset, total) == None)
            && (cluster >= 0 ==> ClusterPos(v, cluster) >= 0)
            && (cluster >= 0 && total <= size ==>
                  ReadAt(v, start, offset, total) == Some(Slice(v.disk, ClusterPos(v, cluster) + place, total)))
            && (total > size ==> OnDiskAt(v, start, offset + size, total - size))
            && (cluster >= 0 && total > size ==>
                  ReadAt(v, start, offset, total)
                  == Prepended(Slice(v.disk, ClusterPos(v, cluster) + place, size),
                               ReadAt(v, start, offset + size, total - size)))
  {
    var size := ClusterSize(v);
    var q, r := IndexOf(v, offset), PlaceIn(v, offset);
    Divided(offset, size);
    hide ClusterSize, IndexOf, PlaceIn, ClusterAt, ClusterPos, RawRead, OnDisk, Slice;
    RawReadStep(v, start, q, r, total);
    if total > size {
      Rows(q + 1, size);
      ReadAtIs(v, start, offset + size, total - size, q + 1, r);
    }
  }

  /** The elements of a fat16_read can each be read. */
  ghost predicate ElementsOnDisk(v: Volume, start: nat, offset: nat, size: nat, n: nat) {
    forall i: nat | i < n :: OnDiskAt(v, start, offset + i * size, size)
  }

  lemma ElementsOnDiskRest(v: Volume, start: nat, offset: nat, size: nat, n: nat)
    requires n > 0 && ElementsOnDisk(v, start, offset, size, n)
    ensures OnDiskAt(v, start, offset, size) && ElementsOnDisk(v, start, offset + size, size, n - 1)
  {
    hide OnDiskAt;
    assert OnDiskAt(v, start, offset + 0 * size, size);
    forall i: nat | i < n - 1
      ensures OnDiskAt(v, start, offset + size + i * size, size)
    {
      Rows(i + 1, size);
      assert OnDiskAt(v, start, offset + (i + 1) * size, size);
    }
  }

  /** fat16_read: n reads of `size` bytes one behind the other, None at the first error. */
  ghost function ReadElements(v: Volume, start: nat, offset: nat, size: nat, n: nat): (r: Option<seq<Byte>>)
    requires ElementsOnDisk(v, start, offset, size, n)
    ensures r.Some? ==> |r.value| == n * size
    decreases n
  {
    if n == 0 then Some([])
    else
      ElementsOnDiskRest(v, start, offset, size, n);
      Rows(n, size);
      match ReadAt(v, start, offset, size)
      case None => None
      case Some(data) => Prepended(data, ReadElements(v, start, offset + size, size, n - 1))
  }

  /** An element at a multiple of its size stays in one cluster when the size divides the cluster. */
  lemma ElementInCluster(size: nat, b: nat, a: nat)
    requires size > 0 && b > 0
    ensures a * size == a / b * (size * b) + a % b * size
    ensures a % b * size + size <= size * b
  {
    var q, t := a / b, a % b;
    Divided(a, b);
    Distribute(q * b, t, size);
    Associate(q, b, size);
    Multiple(t, b, size);
  }

  lemma OneElement(v: Volume, start: nat, k: nat, size: nat, b: nat, a: nat)
    requires Chain(v, start, k) && size > 0 && b > 0 && ClusterSize(v) == size * b
    requires a * size + size <= k * ClusterSize(v)
    ensures OnDiskAt(v, start, a * size, size) && a * size + size <= |Content(v, start, k)|
    ensures ReadAt(v, start, a * size, size) == Some(Content(v, start, k)[a * size..a * size + size])
  {
    var q, r, o := a / b, a % b * size, a * size;
    ElementInCluster(size, b, a);
    assert v.sectorsPerCluster > 0;
    hide ClusterSize, Content, ReadAt, OnDiskAt, RawRead, OnDisk, Chain;
    assert o == q * ClusterSize(v) + r && r + size <= ClusterSize(v);
    Product(a % b, size);
    Below(q, k, ClusterSize(v));
    WithinClusterIsContiguous(v, start, q, r, size);
    ReadRefinesContent(v, start, k, q, r, size, o);
    ReadAtIs(v, start, o, size, q, r);
  }

  /** Reading elements whose size divides the cluster size gives the file's bytes,
      on every chain, fragmented or not. */
  lemma {:induction false} ElementsRefineContent(v: Volume, start: nat, k: nat, size: nat, b: nat, a: nat, n: nat,
                                                 o: nat, m: nat)
    requires Chain(v, start, k) && size > 0 && b > 0 && ClusterSize(v) == size * b
    requires o == a * size && m == n * size && o + m <= k * ClusterSize(v)
    ensures o + m <= |Content(v, start, k)|
    ensures ElementsOnDisk(v, start, o, size, n)
    ensures ReadElements(v, start, o, size, n) == Some(Content(v, start, k)[o..o + m])
    decreases n
  {
    ContentLength(v, start, k);
    hide Content, Chain, ClusterSize, ReadAt, OnDiskAt, ElementsOnDisk, ReadElements;
    var s := Content(v, start, k);
    if n == 0 {
      NothingOnDisk(v, start, o, size);
      assert s[o..o] == [];
    } else {
      Rows(n, size);
      Rows(a + 1, size);
      Product(n - 1, size);
      OneElement(v, start, k, size, b, a);
      ElementsRefineContent(v, start, k, size, b, a + 1, n - 1, o + size, m - size);
      OneElementMore(v, start, o, size, n, s[o..o + size], s[o + size..o + m]);
      Adjacent(s, o, size, m);
    }
  }

  lemma Adjacent(s: seq<Byte>, o: nat, m: nat, n: nat)
    requires m <= n && o + n <= |s|
    ensures s[o..o + m] + s[o + m..o + n] == s[o..o + n]
  {
  }

  lemma OneElementMore(v: Volume, start: nat, o: nat, size: nat, n: nat, data: seq<Byte>, rest: seq<Byte>)
    requires n > 0 && OnDiskAt(v, start, o, size) && ReadAt(v, start, o, size) == Some(data)
    requires ElementsOnDisk(v, start, o + size, size, n - 1)
    requires ReadElements(v, start, o + size, size, n - 1) == Some(rest)
    ensures ElementsOnDisk(v, start, o, size, n) && ReadElements(v, start, o, size, n) == Some(data + rest)
  {
    ElementsOnDiskMore(v, start, o, size, n);
    hide ElementsOnDisk, OnDiskAt, ReadAt;
  }

  lemma NothingOnDisk(v: Volume, start: nat, offset: nat, size: nat)
    ensures ElementsOnDisk(v, start, offset, size, 0) && ReadElements(v, start, offset, size, 0) == Some([])
  {
  }

  lemma ElementsOnDiskMore(v: Volume, start: nat, offset: nat, size: nat, n: nat)
    requires n > 0 && OnDiskAt(v, start, offset, size) && ElementsOnDisk(v, start, offset + size, size, n - 1)
    ensures ElementsOnDisk(v, start, offset, size, n)
  {
    hide OnDiskAt;
    forall i: nat | i < n
      ensures OnDiskAt(v, start, offset + i * size, size)
    {
      if i > 0 {
        Rows(i, size);
        assert OnDiskAt(v, start, offset + size + (i - 1) * size, size);
      } else {
        assert i * size == 0;
      }
    }
  }

  /** n elements of one byte and one element of n bytes: the kernel's two ways of reading a file. */
  lemma WholeFileReadsAgree(v: Volume, start: nat, k: nat, n: nat)
    requires Chain(v, start, k) && 0 < n <= k * ClusterSize(v)
    ensures n <= |Content(v, start, k)|
    ensures ElementsOnDisk(v, start, 0, 1, n) && ElementsOnDisk(v, start, 0, n, 1)
    ensures ReadElements(v, start, 0, 1, n) == Some(Content(v, start, k)[..n])
    ensures ReadElements(v, start, 0, n, 1) == Some(Content(v, start, k)[..n])
  {
    assert v.sectorsPerCluster > 0 && ClusterSize(v) > 0;
    ContentLength(v, start, k);
    ElementsRefineContent(v, start, k, 1, ClusterSize(v), 0, n, 0, n);
    hide Content, Chain, ClusterSize, ReadAt, OnDiskAt;
    Below(0, k, ClusterSize(v));
    ReadRefinesContent(v, start, k, 0, 0, n, 0);
    ReadAtIs(v, start, 0, n, 0, 0);
    OneElementRead(v, start, 0, n, Content(v, start, k)[..n]);
  }

  lemma OneElementRead(v: Volume, start: nat, offset: nat, size: nat, data: seq<Byte>)
    requires OnDiskAt(v, start, offset, size) && ReadAt(v, start, offset, size) == Some(data)
    ensures ElementsOnDisk(v, start, offset, size, 1) && ReadElements(v, start, offset, size, 1) == Some(data)
  {
    hide OnDiskAt, ReadAt;
    NothingOnDisk(v, start, offset + size, size);
    OneElementMore(v, start, offset, size, 1, data, []);
    assert data + [] == data;
  }

  // ---------------------------------------------------------------- methods

  /** The private data of a mounted volume, and its two streams */
  class FatPrivate {
    const volume: Volume
    const clusterReadStream: DiskStream
    const fatReadStream: DiskStream

    ghost predicate Valid() {
      && volume.sectorsPerCluster > 0
      && clusterReadStream != fatReadStream
      && clusterReadStream.disk == volume.disk && fatReadStream.disk == volume.disk
    }

    constructor (v: Volume)
      requires v.sectorsPerCluster > 0
      ensures Valid() && volume == v && fresh(clusterReadStream) && fresh(fatReadStream)
    {
      var clusters := new DiskStream(v.disk);
      var fat := new DiskStream(v.disk);
      volume, clusterReadStream, fatReadStream := v, clusters, fat;
    }

    /** fat16_get_fat_entry */
    method GetFatEntry(cluster: nat) returns (res: int)
      requires Valid()
      modifies fatReadStream
      ensures res == FatEntry(volume, cluster)
    {
      var fatTablePosition := volume.reservedSectors * SECTOR_SIZE;
      res := fatReadStream.Seek(fatTablePosition + cluster * FAT_ENTRY_SIZE);
      if res < 0 {
        assert false;
      }
      var result: array<Byte> := new Byte[2](_ => 0);
      res := fatReadStream.Read(result, 0, 2);
      if res < 0 {
        assert false;
      }
      var low: int, high: int := result[0], result[1];
      assert low == result[..][0] && high == result[..][1];
      res := low + 256 * high;
    }

    /** fat16_get_cluster_for_offset: the chain is walked from its start every time. */
    method GetClusterForOffset(startingCluster: nat, offset: nat) returns (res: int)
      requires Valid()
      modifies fatReadStream
      ensures res == ClusterAt(volume, startingCluster, IndexOf(volume, offset))
    {
      hide FatEntry;
      var clusterToUse: nat := startingCluster;
      var clustersAhead := offset / (volume.sectorsPerCluster * SECTOR_SIZE);
      for i := 0 to clustersAhead
        invariant ClusterAt(volume, startingCluster, clustersAhead)
               == ClusterAt(volume, clusterToUse, clustersAhead - i)
      {
        var entry := GetFatEntry(clusterToUse);
        if entry == 0xfff8 || entry == 0xffff {
          return -EIO;
        }
        if entry == 0xff7 {
          return -EIO;
        }
        if entry == 0xff0 || entry == 0xff6 {
          return -EIO;
        }
        if entry == 0 {
          return -EIO;
        }
        clusterToUse := entry;
      }
      return clusterToUse;
    }

    /** fat16_cluster_to_sector */
    function ClusterToSector(cluster: int): (sector: int)
      ensures sector * SECTOR_SIZE == ClusterPos(volume, cluster)
    {
      volume.dataStart + (cluster - 2) * volume.sectorsPerCluster
    }

    /** One piece of fat16_read_internal_from_stream: at most a cluster's length in one go */
    method ReadPiece(cluster: nat, offset: nat, n: nat, out: array<Byte>, at: nat) returns (res: int)
      requires Valid() && ClusterPos(volume, cluster) >= 0 && at + n <= out.Length
      modifies clusterReadStream, out
      ensures res == 0
      ensures out[..] == Written(old(out[..]), at,
                                 Slice(volume.disk, ClusterPos(volume, cluster) + PlaceIn(volume, offset), n))
    {
      var offsetFromCluster := offset % (volume.sectorsPerCluster * SECTOR_SIZE);
      assert offsetFromCluster == PlaceIn(volume, offset);
      hide ClusterPos, ClusterToSector, Slice, Written, PlaceIn;
      var startingSector := ClusterToSector(cluster);
      res := clusterReadStream.Seek(startingSector * SECTOR_SIZE + offsetFromCluster);
      res := clusterReadStream.Read(out, at, n);
    }

    /** fat16_read_internal_from_stream, with the volume's data stream, into out from `at` on */
    method ReadInternal(cluster: nat, offset: nat, total: nat, out: array<Byte>, at: nat) returns (res: int)
      requires Valid() && OnDiskAt(volume, cluster, offset, total) && at + total <= out.Length
      modifies clusterReadStream, fatReadStream, out
      ensures var data := ReadAt(volume, cluster, offset, total);
              && (data.Some? ==> res == 0 && out[..] == Written(old(out[..]), at, data.value))
              && (data.None? ==> res == -EIO)
      decreases total
    {
      hide ClusterPos, ClusterAt, Slice, Written, IndexOf, PlaceIn, ReadAt, OnDiskAt, Prepended;
      ghost var buffer := out[..];
      var sizeOfClusterBytes := volume.sectorsPerCluster * SECTOR_SIZE;
      var clusterToUse := GetClusterForOffset(cluster, offset);
      ReadAtStep(volume, cluster, offset, total);
      if clusterToUse < 0 {
        return clusterToUse;
      }
      var totalToRead := if total > sizeOfClusterBytes then sizeOfClusterBytes else total;
      res := ReadPiece(clusterToUse, offset, totalToRead, out, at);
      ghost var data := Slice(volume.disk, ClusterPos(volume, clusterToUse) + PlaceIn(volume, offset), totalToRead);
      var rest := total - totalToRead;
      if rest > 0 {
        res := ReadInternal(cluster, offset + totalToRead, rest, out, at + totalToRead);
        ghost var more := ReadAt(volume, cluster, offset + totalToRead, rest);
        if more.Some? {
          WrittenTwice(buffer, at, data, more.value);
        }
      }
    }

    /** One round of the loop of fat16_read, with the elements still to come */
    method ReadElement(start: nat, offset: nat, size: nat, out: array<Byte>, at: nat, ghost left: nat,
                       ghost buffer: seq<Byte>, ghost done: seq<Byte>)
      returns (res: int, ghost data: seq<Byte>)
      requires Valid() && left > 0 && ElementsOnDisk(volume, start, offset, size, left)
      requires at == |done| && at + size <= out.Length == |buffer| && out[..] == Written(buffer, 0, done)
      modifies clusterReadStream, fatReadStream, out
      ensures ElementsOnDisk(volume, start, offset + size, size, left - 1)
      ensures var r, rest := ReadElements(volume, start, offset, size, left),
                             ReadElements(volume, start, offset + size, size, left - 1);
              && (res >= 0 ==> |data| == size && out[..] == Written(buffer, 0, done + data)
                               && r == Prepended(data, rest))
              && (res < 0 ==> res == -EIO && r == None)
    {
      ElementsOnDiskRest(volume, start, offset, size, left);
      hide ElementsOnDisk, OnDiskAt, ReadAt, Written;
      data := [];
      res := ReadInternal(start, offset, size, out, at);
      if res < 0 {
        return;
      }
      data := ReadAt(volume, start, offset, size).value;
      WrittenTwice(buffer, 0, done, data);
    }

    /** fat16_read: n elements of `size` bytes from the descriptor's position. */
    method Read(descriptor: FatFileDescriptor, size: nat, nmemb: nat, out: array<Byte>) returns (res: int)
      requires Valid() && ElementsOnDisk(volume, descriptor.firstCluster, descriptor.pos, size, nmemb)
      requires nmemb * size <= out.Length
      modifies descriptor, clusterReadStream, fatReadStream, out
      ensures var data := ReadElements(volume, descriptor.firstCluster, old(descriptor.pos), size, nmemb);
              && (data.Some? ==> res == nmemb && descriptor.pos == old(descriptor.pos) + nmemb * size
                                 && out[..] == Written(old(out[..]), 0, data.value))
              && (data.None? ==> res == -EIO && descriptor.pos == old(descriptor.pos))
    {
      hide Written, ElementsOnDisk, ReadElements, Prepended;
      var start, offset, at := descriptor.firstCluster, descriptor.pos, 0;
      ghost var v, buffer, pos := volume, out[..], descriptor.pos;
      ghost var done: seq<Byte>, todo := [], ReadElements(v, start, offset, size, nmemb);
      WrittenNothing(buffer);
      PrependedNothing(todo);
      for i := 0 to nmemb
        invariant at == |done| == i * size && offset == pos + at && descriptor.pos == pos
        invariant out[..] == Written(buffer, 0, done)
        invariant ElementsOnDisk(v, start, offset, size, nmemb - i)
        invariant todo == ReadElements(v, start, offset, size, nmemb - i)
        invariant Prepended(done, todo) == ReadElements(v, start, pos, size, nmemb)
      {
        Multiple(i, nmemb, size);
        Rows(i + 1, size);
        ghost var data: seq<Byte>;
        res, data := ReadElement(start, offset, size, out, at, nmemb - i, buffer, done);
        if res < 0 {
          return;
        }
        todo := ReadElements(v, start, offset + size, size, nmemb - i - 1);
        PrependedTwice(done, data, todo);
        done := done + data;
        at, offset := at + size, offset + size;
      }
      NoElements(v, start, offset, size, done);
      descriptor.pos := offset;
      res := nmemb;
    }
  }

  lemma NoElements(v: Volume, start: nat, offset: nat, size: nat, done: seq<Byte>)
    requires ElementsOnDisk(v, start, offset, size, 0)
    ensures Prepended(done, ReadElements(v, start, offset, size, 0)) == Some(done)
  {
    assert done + [] == done;
  }

  lemma PrependedNothing(r: Option<seq<Byte>>)
    ensures Prepended([], r) == r
  {
    if r.Some? {
      assert [] + r.value == r.value;
    }
  }

  lemma PrependedTwice(a: seq<Byte>, b: seq<Byte>, r: Option<seq<Byte>>)
    ensures Prepended(a, Prepended(b, r)) == Prepended(a + b, r)
  {
    if r.Some? {
      assert a + (b + r.value) == a + b + r.value;
    }
  }

  /** struct fat_file_descriptor, with the first cluster of its directory item */
  class FatFileDescriptor {
    const firstCluster: nat
    var pos: nat

    constructor (cluster: nat)
      ensures firstCluster == cluster && pos == 0
    {
      firstCluster, pos := cluster, 0;
    }
  }
}

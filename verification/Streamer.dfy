/** src/disk/streamer.c: byte reads from a disk that is read by sectors. */
module Streamer {
  import opened Words

  const SECTOR_SIZE := 512

  /** The disk's bytes by position; every sector can be read. */
  type Disk = nat -> Byte

  function Slice(disk: Disk, pos: nat, n: nat): (s: seq<Byte>)
    ensures |s| == n && forall i | 0 <= i < n :: s[i] == disk(pos + i)
  {
    seq(n, i requires 0 <= i < n => disk(pos + i))
  }

  /** disk_read_block of one sector */
  function ReadSector(disk: Disk, lba: nat): (s: seq<Byte>)
    ensures |s| == SECTOR_SIZE
  {
    Slice(disk, lba * SECTOR_SIZE, SECTOR_SIZE)
  }

  /** The buffer with `data` written from index `at` on. */
  function Written(buffer: seq<Byte>, at: nat, data: seq<Byte>): (r: seq<Byte>)
    requires at + |data| <= |buffer|
    ensures |r| == |buffer|
    ensures forall i | 0 <= i < |buffer| :: r[i] == if at <= i < at + |data| then data[i - at] else buffer[i]
  {
    buffer[..at] + data + buffer[at + |data|..]
  }

  lemma WrittenNothing(buffer: seq<Byte>)
    ensures Written(buffer, 0, []) == buffer
  {
  }

  lemma WrittenTwice(buffer: seq<Byte>, at: nat, data: seq<Byte>, more: seq<Byte>)
    requires at + |data| + |more| <= |buffer|
    ensures Written(Written(buffer, at, data), at + |data|, more) == Written(buffer, at, data + more)
  {
  }

  /** Two adjacent reads are one. */
  lemma ReadTwice(disk: Disk, buffer: seq<Byte>, at: nat, pos: nat, m: nat, n: nat)
    requires at + m + n <= |buffer|
    ensures Written(Written(buffer, at, Slice(disk, pos, m)), at + m, Slice(disk, pos + m, n))
         == Written(buffer, at, Slice(disk, pos, m + n))
  {
  }

  /** struct disk_stream */
  class DiskStream {
    var pos: nat
    const disk: Disk

    constructor (contents: Disk)
      ensures pos == 0 && disk == contents
    {
      pos, disk := 0, contents;
    }

    /** diskstreamer_seek */
    method Seek(position: nat) returns (res: int)
      modifies this
      ensures res == 0 && pos == position
    {
      pos := position;
      return 0;
    }

    /** The copy loop of diskstreamer_read: n bytes of one sector, from `offset` on. */
    method CopyFromSector(out: array<Byte>, at: nat, sector: nat, offset: nat, n: nat)
      requires at + n <= out.Length && offset + n <= SECTOR_SIZE
      modifies out
      ensures out[..] == Written(old(out[..]), at, Slice(disk, sector * SECTOR_SIZE + offset, n))
    {
      var buf := ReadSector(disk, sector);
      for i := 0 to n
        invariant out[..] == Written(old(out[..]), at, Slice(disk, sector * SECTOR_SIZE + offset, i))
      {
        out[at + i] := buf[offset + i];
      }
    }

    /** diskstreamer_read into out from index `at` on: the stream is a flat byte array. */
    method Read(out: array<Byte>, at: nat, total: nat) returns (res: int)
      requires at + total <= out.Length
      modifies this, out
      ensures res == 0 && pos == old(pos) + total
      ensures out[..] == Written(old(out[..]), at, Slice(disk, old(pos), total))
      decreases total
    {
      hide Slice, Written;
      var sector, offset, totalToRead := pos / SECTOR_SIZE, pos % SECTOR_SIZE, total;
      var overflow := offset + totalToRead >= SECTOR_SIZE;
      if overflow {
        totalToRead := totalToRead - (offset + totalToRead - SECTOR_SIZE);
      }
      ghost var buffer, p := out[..], pos;
      assert sector * SECTOR_SIZE + offset == p;
      CopyFromSector(out, at, sector, offset, totalToRead);
      assert out[..] == Written(buffer, at, Slice(disk, p, totalToRead));
      pos := pos + totalToRead;
      if overflow {
        ghost var rest := total - totalToRead;
        res := Read(out, at + totalToRead, total - totalToRead);
        assert out[..] == Written(Written(buffer, at, Slice(disk, p, totalToRead)), at + totalToRead,
                                  Slice(disk, p + totalToRead, rest));
        ReadTwice(disk, buffer, at, p, totalToRead, rest);
        assert totalToRead + rest == total;
      } else {
        res := 0;
      }
    }
  }
}

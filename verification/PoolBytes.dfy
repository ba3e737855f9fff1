/** The heap's memory byte by byte. */
module PoolBytes {
  import opened Words
  import opened KHeap
  import opened PageTables

  /** Byte number k of the pool */
  function PoolByte(w: seq<Word>, k: nat): Byte
    requires k < |w| * 4
  {
    GetByte(w[k / 4], k % 4)
  }

  /** The pool after a byte store */
  ghost predicate Stored(w: seq<Word>, w': seq<Word>, k: nat, v: Byte) {
    && |w'| == |w|
    && forall j | 0 <= j < |w| * 4 :: PoolByte(w', j) == if j == k then v else PoolByte(w, j)
  }

  lemma StoreByte(w: seq<Word>, k: nat, v: Byte)
    requires k < |w| * 4
    ensures Stored(w, w[k / 4 := SetByte(w[k / 4], k % 4, v)], k, v)
  {
    hide GetByte, SetByte;
    var w' := w[k / 4 := SetByte(w[k / 4], k % 4, v)];
    forall j | 0 <= j < |w| * 4
      ensures PoolByte(w', j) == if j == k then v else PoolByte(w, j)
    {
      if j / 4 == k / 4 && j != k {
        assert j % 4 != k % 4;
      }
    }
  }

  lemma ZeroHasNoBytes()
    ensures forall k: nat | k < 4 :: GetByte(0, k) == 0
  {
    assert GetByte(0, 1) == 0 && GetByte(0, 2) == 0 && GetByte(0, 3) == 0;
  }

  lemma ByteCleared(w: seq<Word>, b: nat, n: nat, k: nat)
    requires k < |w| * 4
    ensures PoolByte(ZeroBytes(w, b * ENTRIES, n), k)
         == if b * PAGE_SIZE <= k < b * PAGE_SIZE + n then 0 else PoolByte(w, k)
  {
    hide GetByte;
    ZeroHasNoBytes();
    var w' := ZeroBytes(w, b * ENTRIES, n);
    var j := k / 4;
    assert k == 4 * j + k % 4;
    assert w'[j] == if b * ENTRIES <= j < b * ENTRIES + n / 4 then 0
                    else if j == b * ENTRIES + n / 4 then ClearLow(w[j], n % 4) else w[j];
  }

  /** The first n bytes of block b */
  ghost function Bytes(w: seq<Word>, b: nat, n: nat): (r: seq<Byte>)
    requires InPool(w, b) && n <= PAGE_SIZE
    ensures |r| == n
  {
    seq<Byte>(n, i requires 0 <= i < n => PoolByte(w, b * PAGE_SIZE + i))
  }

  /** The words of block b are the same. */
  ghost predicate SameBlock(w: seq<Word>, w': seq<Word>, b: nat) {
    && |w'| == |w|
    && forall k | 0 <= k < |w| && k / ENTRIES == b :: w'[k] == w[k]
  }

  lemma BytesKept(w: seq<Word>, w': seq<Word>, b: nat, n: nat)
    requires SameBlock(w, w', b) && InPool(w, b) && n <= PAGE_SIZE
    ensures Bytes(w', b, n) == Bytes(w, b, n)
  {
    hide GetByte;
    forall i | 0 <= i < n
      ensures Bytes(w', b, n)[i] == Bytes(w, b, n)[i]
    {
      var k := (b * PAGE_SIZE + i) / 4;
      assert k / ENTRIES == b;
      assert w'[k] == w[k];
      assert Bytes(w', b, n)[i] == PoolByte(w', b * PAGE_SIZE + i);
      assert Bytes(w, b, n)[i] == PoolByte(w, b * PAGE_SIZE + i);
    }
  }

  /** A byte stored in the first n bytes of block b */
  lemma BytesStored(w: seq<Word>, w': seq<Word>, b: nat, n: nat, i: nat, v: Byte)
    requires InPool(w, b) && i < n <= PAGE_SIZE && Stored(w, w', b * PAGE_SIZE + i, v)
    ensures InPool(w', b) && Bytes(w', b, n) == Bytes(w, b, n)[i := v]
  {
    hide PoolByte;
    forall j | 0 <= j < n
      ensures Bytes(w', b, n)[j] == Bytes(w, b, n)[i := v][j]
    {
      assert Bytes(w', b, n)[j] == PoolByte(w', b * PAGE_SIZE + j);
      assert Bytes(w, b, n)[j] == PoolByte(w, b * PAGE_SIZE + j);
    }
  }
}

/** 32-bit words, and the bitwise operators of C on them.
    Words are integers; `|` and `&` are defined bit by bit, so that tagging a
    pointer with flag bits and masking them off again is a theorem here. */
module Words {
  type Word = n: int | 0 <= n < 0x1_0000_0000

  const WORD_LIMIT := 0x1_0000_0000
  const PAGE_MASK := 0xfffff000

  /** a | b */
  function Or(a: nat, b: nat): nat
    decreases a + b
  {
    if a == 0 && b == 0 then 0
    else 2 * Or(a / 2, b / 2) + (if a % 2 == 1 || b % 2 == 1 then 1 else 0)
  }

  /** a & b */
  function And(a: nat, b: nat): nat
    decreases a + b
  {
    if a == 0 || b == 0 then 0
    else 2 * And(a / 2, b / 2) + (if a % 2 == 1 && b % 2 == 1 then 1 else 0)
  }

  /** a << k, without a width limit */
  function Shl(a: nat, k: nat): nat {
    if k == 0 then a else 2 * Shl(a, k - 1)
  }

  lemma {:induction false} OrZero(a: nat)
    ensures Or(0, a) == a && Or(a, 0) == a
  {
    if a > 0 {
      OrZero(a / 2);
    }
  }

  lemma {:induction false} OrBound(k: nat, a: nat, b: nat)
    requires a < Shl(1, k) && b < Shl(1, k)
    ensures Or(a, b) < Shl(1, k)
  {
    if k > 0 {
      OrBound(k - 1, a / 2, b / 2);
    }
  }

  /** Bits or-ed in below bit k leave everything from bit k up alone. */
  lemma {:induction false} OrLow(k: nat, high: nat, low: nat, flags: nat)
    requires low < Shl(1, k) && flags < Shl(1, k)
    ensures Or(Shl(high, k) + low, flags) == Shl(high, k) + Or(low, flags)
  {
    if k == 0 {
      OrZero(high);
    } else {
      OrLow(k - 1, high, low / 2, flags / 2);
    }
  }

  /** Masking with the low k bits set keeps a number of at most k bits. */
  lemma {:induction false} AndOnes(k: nat, a: nat, ones: nat)
    requires a < Shl(1, k) && ones == Shl(1, k) - 1
    ensures And(a, ones) == a
  {
    if k > 0 {
      AndOnes(k - 1, a / 2, ones / 2);
    }
  }

  /** Masking with a mask that is clear below bit k drops exactly the low k bits. */
  lemma {:induction false} AndHigh(k: nat, high: nat, low: nat, mask: nat)
    requires low < Shl(1, k)
    ensures And(Shl(high, k) + low, Shl(mask, k)) == Shl(And(high, mask), k)
  {
    if k > 0 {
      hide And, Shl;
      ShlStep(1, k);
      ShlStep(high, k);
      ShlStep(mask, k);
      ShlStep(And(high, mask), k);
      AndHigh(k - 1, high, low / 2, mask);
      Half(Shl(high, k - 1), low);
      Half(Shl(mask, k - 1), 0);
      AndDouble(Shl(high, k) + low, Shl(mask, k));
    }
  }

  lemma ShlStep(a: nat, k: nat)
    requires k > 0
    ensures Shl(a, k) == 2 * Shl(a, k - 1)
  {
  }

  /** Masking with a mask below bit k looks at the low k bits only. */
  lemma {:induction false} AndLow(k: nat, high: nat, low: nat, mask: nat)
    requires low < Shl(1, k) && mask < Shl(1, k)
    ensures And(Shl(high, k) + low, mask) == And(low, mask)
  {
    if k > 0 {
      hide And, Shl;
      ShlStep(1, k);
      ShlStep(high, k);
      AndLow(k - 1, high, low / 2, mask / 2);
      AndStep(Shl(high, k) + low, mask);
      AndStep(low, mask);
      Half(Shl(high, k - 1), low);
    } else {
      assert mask == 0;
    }
  }

  lemma AndStep(a: nat, b: nat)
    ensures And(a, b) == 2 * And(a / 2, b / 2) + (if a % 2 == 1 && b % 2 == 1 then 1 else 0)
  {
  }

  /** A mask applied to or-ed bits */
  lemma {:induction false} AndOfOr(a: nat, b: nat, mask: nat)
    ensures And(Or(a, b), mask) == Or(And(a, mask), And(b, mask))
    decreases a + b
  {
    if a + b > 0 {
      AndOfOr(a / 2, b / 2, mask / 2);
      OrHalves(a, b);
      AndHalves(Or(a, b), mask);
      AndHalves(a, mask);
      AndHalves(b, mask);
      OrHalves(And(a, mask), And(b, mask));
      hide And, Or;
      SameHalves(And(Or(a, b), mask), Or(And(a, mask), And(b, mask)));
    } else {
      assert And(0, mask) == 0;
    }
  }

  lemma OrHalves(a: nat, b: nat)
    ensures Or(a, b) / 2 == Or(a / 2, b / 2) && (Or(a, b) % 2 == 1 <==> a % 2 == 1 || b % 2 == 1)
  {
  }

  lemma AndHalves(a: nat, b: nat)
    ensures And(a, b) / 2 == And(a / 2, b / 2) && (And(a, b) % 2 == 1 <==> a % 2 == 1 && b % 2 == 1)
  {
  }

  lemma SameHalves(a: nat, b: nat)
    requires a / 2 == b / 2 && (a % 2 == 1 <==> b % 2 == 1)
    ensures a == b
  {
  }

  lemma Half(a: nat, low: nat)
    ensures (2 * a + low) / 2 == a + low / 2 && 2 * a % 2 == 0
  {
  }

  lemma AndDouble(a: nat, m: nat)
    requires m % 2 == 0
    ensures And(a, m) == 2 * And(a / 2, m / 2)
  {
  }

  lemma Shl12(a: nat)
    ensures Shl(a, 12) == 4096 * a
  {
    assert Shl(a, 1) == 2 * a;
    assert Shl(a, 2) == 4 * a;
    assert Shl(a, 4) == 16 * a;
    assert Shl(a, 6) == 64 * a;
    assert Shl(a, 8) == 256 * a;
    assert Shl(a, 10) == 1024 * a;
  }

  lemma Shl32()
    ensures Shl(1, 20) == 0x100000 && Shl(1, 32) == 0x1_0000_0000
  {
    assert Shl(1, 8) == 0x100;
    assert Shl(1, 16) == 0x10000;
    assert Shl(1, 20) == 0x100000;
    assert Shl(1, 24) == 0x1000000;
  }

  /** The address part of a page-table or directory entry: `entry & 0xfffff000`,
      as MaskIsAnd shows. */
  function Mask(entry: Word): Word {
    entry - entry % 4096
  }

  lemma MaskIsAnd(entry: Word)
    ensures And(entry, PAGE_MASK) == Mask(entry)
  {
    var high, low := entry / 4096, entry % 4096;
    Shl12(high);
    Shl12(0xfffff);
    Shl12(1);
    Shl32();
    AndHigh(12, high, low, 0xfffff);
    AndOnes(20, high, 0xfffff);
  }

  /** base | flags, as a word */
  function Tag(base: Word, flags: Word): (r: Word)
    ensures flags < 4096 ==> r - r % 4096 == base - base % 4096
    ensures flags < 4096 && base % 4096 == 0 ==> r == base + flags
  {
    OrBoundWord(base, flags);
    TagKeepsPage(base, flags);
    Or(base, flags)
  }

  lemma TagKeepsPage(base: Word, flags: Word)
    ensures flags < 4096 ==> Or(base, flags) - Or(base, flags) % 4096 == base - base % 4096
    ensures flags < 4096 && base % 4096 == 0 ==> Or(base, flags) == base + flags
  {
    hide Or;
    if flags < 4096 {
      TagIsLow(base, flags);
    }
  }

  lemma OrBoundWord(base: Word, flags: Word)
    ensures Or(base, flags) < WORD_LIMIT
  {
    Shl32();
    OrBound(32, base, flags);
  }

  /** Flag bits or-ed into an address, tagged already or not, stay in its low twelve bits. */
  lemma TagIsLow(base: Word, flags: Word)
    requires flags < 4096
    ensures Or(base, flags) == base - base % 4096 + Or(base % 4096, flags)
    ensures Or(base % 4096, flags) < 4096
    ensures base % 4096 == 0 ==> Or(base, flags) == base + flags
  {
    Shl12(1);
    Shl12(base / 4096);
    OrLow(12, base / 4096, base % 4096, flags);
    OrBound(12, base % 4096, flags);
    if base % 4096 == 0 {
      OrZero(flags);
    }
  }

  /** A page-aligned pointer tagged twice is the pointer and all the flags. */
  lemma TagTwice(address: Word, flags: Word, more: Word)
    requires address % 4096 == 0 && flags < 4096 && more < 4096
    ensures Tag(Tag(address, flags), more) == address + Or(flags, more)
  {
    hide Or, Tag, And, Mask, Shl;
    var tagged: Word := Tag(address, flags);
    assert tagged == address + flags;
    LowBits(address, flags);
    TagIsLow(tagged, more);
    TagIs(tagged, more);
  }

  lemma LowBits(address: nat, flags: nat)
    requires address % 4096 == 0 && flags < 4096
    ensures (address + flags) % 4096 == flags
  {
    assert address == 4096 * (address / 4096);
  }

  lemma TagIs(base: Word, flags: Word)
    ensures Tag(base, flags) == Or(base, flags)
  {
  }

  /** Flag bits are read from the low twelve bits. */
  lemma AndTagged(address: Word, flags: nat, mask: nat)
    requires address % 4096 == 0 && flags < 4096 && mask < 4096
    ensures And(address + flags, mask) == And(flags, mask)
  {
    Shl12(address / 4096);
    Shl12(1);
    AndLow(12, address / 4096, flags, mask);
  }

  /** Or-ing in the writable bit of a page-table entry sets it and no other. */
  lemma WritableBit(flags: nat)
    ensures And(Or(flags, 2), 2) == 2
    ensures And(Or(flags, 2), 1) == And(flags, 1) && And(Or(flags, 2), 4) == And(flags, 4)
  {
    AndOfOr(flags, 2, 2);
    AndOfOr(flags, 2, 1);
    AndOfOr(flags, 2, 4);
    OrZero(And(flags, 1));
    OrZero(And(flags, 4));
    assert And(2, 2) == 2 && And(2, 1) == 0 && And(2, 4) == 0;
    assert And(flags, 2) == 2 * And(flags / 2, 1);
    assert And(flags / 2, 1) == flags / 2 % 2;
    assert Or(2, 2) == 2 && Or(0, 2) == 2;
  }

  /** Masking a page-aligned pointer tagged twice gives the pointer back, whatever
      the flag bits: the directory entries of `paging_new_4gb` rely on it. */
  lemma MaskTagTwice(address: Word, flags: Word, more: Word)
    requires address % 4096 == 0 && flags < 4096 && more < 4096
    ensures Mask(Tag(Tag(address, flags), more)) == address
  {
    assert Mask(Tag(address, flags)) == address;
  }

  // ------------------------------------------------------------- bytes

  type Byte = n: int | 0 <= n < 256

  /** Byte k of a little-endian number */
  function GetByte(a: nat, k: nat): Byte {
    if k == 0 then a % 256 else GetByte(a / 256, k - 1)
  }

  /** The word with byte k replaced */
  function SetByte(w: Word, k: nat, v: Byte): (r: Word)
    requires k < 4
    ensures forall j: nat :: GetByte(r, j) == if j == k then v else GetByte(w, j)
  {
    PutByteGet(w, k, v);
    assert Pow256(4) == WORD_LIMIT;
    PutByteBound(w, k, v, 4);
    PutByte(w, k, v)
  }

  function PutByte(a: nat, k: nat, v: Byte): nat {
    if k == 0 then a - a % 256 + v else 256 * PutByte(a / 256, k - 1, v) + a % 256
  }

  function Pow256(n: nat): nat {
    if n == 0 then 1 else 256 * Pow256(n - 1)
  }

  lemma {:induction false} PutByteBound(a: nat, k: nat, v: Byte, n: nat)
    requires k < n && a < Pow256(n)
    ensures PutByte(a, k, v) < Pow256(n)
  {
    var q, rest := a / 256, Pow256(n - 1);
    assert a == 256 * q + a % 256 && Pow256(n) == 256 * rest;
    if k > 0 {
      PutByteBound(q, k - 1, v, n - 1);
    }
  }

  lemma {:induction false} PutByteGet(a: nat, k: nat, v: Byte)
    ensures forall j: nat :: GetByte(PutByte(a, k, v), j) == if j == k then v else GetByte(a, j)
  {
    if k > 0 {
      PutByteGet(a / 256, k - 1, v);
    }
  }

  /** A word whose four bytes are zero is zero. */
  lemma ZeroWord(w: Word)
    requires forall k | 0 <= k < 4 :: GetByte(w, k) == 0
    ensures w == 0
  {
    var w1, w2, w3 := w / 0x100, w / 0x10000, w / 0x1000000;
    assert GetByte(w, 0) == w % 256;
    assert GetByte(w, 1) == GetByte(w1, 0) == w1 % 256;
    assert GetByte(w, 2) == GetByte(w1, 1) == GetByte(w2, 0) == w2 % 256;
    assert GetByte(w, 3) == GetByte(w1, 2) == GetByte(w2, 1) == GetByte(w3, 0) == w3 % 256;
  }
}

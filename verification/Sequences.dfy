/** Taking one element out of a sequence. */
module Sequences {
  /** s without element k */
  function Without<T>(s: seq<T>, k: nat): (r: seq<T>)
    requires k < |s|
    ensures |r| == |s| - 1
    ensures forall j | 0 <= j < |r| :: r[j] == if j < k then s[j] else s[j + 1]
  {
    s[..k] + s[k + 1..]
  }

  lemma WithoutAt<T>(s: seq<T>, k: nat, i: nat)
    requires k < |s| && i + 1 < |s|
    ensures Without(s, k)[i] == s[if i < k then i else i + 1]
  {
  }

  lemma NothingNew<T>(s: seq<T>, k: nat)
    requires k < |s|
    ensures forall i | 0 <= i < |s| - 1 :: Without(s, k)[i] in s
  {
  }

  lemma Survives<T>(s: seq<T>, k: nat, x: T)
    requires k < |s| && x in s && x != s[k]
    ensures x in Without(s, k)
  {
    var j :| 0 <= j < |s| && s[j] == x;
    assert Without(s, k)[if j < k then j else j - 1] == x;
  }

  lemma DistinctWithout<T>(s: seq<T>, k: nat)
    requires k < |s| && forall i, j | 0 <= i < j < |s| :: s[i] != s[j]
    ensures forall i, j | 0 <= i < j < |s| - 1 :: Without(s, k)[i] != Without(s, k)[j]
  {
  }
}

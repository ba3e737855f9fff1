/** C strings in buffers, and the tokens of a string. */
module CStrings {
  const NUL := '\0'

  /** The C string at index i of a buffer: the characters before the first NUL. */
  function CStr(s: seq<char>, i: nat): (r: string)
    ensures i + |r| <= |s| || r == []
    decreases |s| - i
  {
    if i >= |s| || s[i] == NUL then [] else [s[i]] + CStr(s, i + 1)
  }

  /** There is a NUL at or after i. */
  predicate Terminated(s: seq<char>, i: nat) {
    i + |CStr(s, i)| < |s|
  }

  /** The characters of the string, by position in the buffer */
  lemma {:induction false} CStrChars(s: seq<char>, i: nat)
    requires i <= |s|
    ensures i + |CStr(s, i)| <= |s|
    ensures forall j {:trigger s[j]} | i <= j < i + |CStr(s, i)| :: s[j] == CStr(s, i)[j - i] && s[j] != NUL
    ensures Terminated(s, i) ==> s[i + |CStr(s, i)|] == NUL
    decreases |s| - i
  {
    if i < |s| && s[i] != NUL {
      CStrChars(s, i + 1);
      assert CStr(s, i) == [s[i]] + CStr(s, i + 1);
    }
  }

  lemma {:induction false} CStrIs(s: seq<char>, i: nat, r: string)
    requires i + |r| < |s| && s[i + |r|] == NUL
    requires forall j {:trigger s[j]} | i <= j < i + |r| :: s[j] == r[j - i] && s[j] != NUL
    ensures CStr(s, i) == r
    decreases |r|
  {
    if r != [] {
      assert s[i] == r[0];
      CStrIs(s, i + 1, r[1..]);
    }
  }

  /** Dropping characters of the string is moving the pointer. */
  lemma CStrDrop(s: seq<char>, i: nat, n: nat)
    requires Terminated(s, i) && n <= |CStr(s, i)|
    ensures CStr(s, i + n) == CStr(s, i)[n..] && Terminated(s, i + n)
  {
    CStrChars(s, i);
    CStrIs(s, i + n, CStr(s, i)[n..]);
  }

  /** A NUL written n characters into the string cuts it there. */
  lemma CStrCut(s: seq<char>, s': seq<char>, i: nat, n: nat)
    requires Terminated(s, i) && n <= |CStr(s, i)| && |s'| == |s|
    requires s' == s[i + n := NUL]
    ensures CStr(s', i) == CStr(s, i)[..n] && Terminated(s', i)
  {
    CStrChars(s, i);
    CStrIs(s', i, CStr(s, i)[..n]);
  }

  /** The string only depends on the buffer up to its NUL. */
  lemma CStrSame(s: seq<char>, s': seq<char>, i: nat)
    requires Terminated(s, i) && |s| <= |s'|
    requires forall j | i <= j <= i + |CStr(s, i)| && j < |s| :: s'[j] == s[j]
    ensures CStr(s', i) == CStr(s, i) && Terminated(s', i)
  {
    CStrChars(s, i);
    CStrIs(s', i, CStr(s, i));
  }

  // ----------------------------------------------------------------- tokens

  /** The string without its leading delimiters. */
  function SkipDelimiters(s: string, delims: string): (r: string)
    ensures |r| <= |s| && (r != [] ==> r[0] !in delims)
  {
    if s != [] && s[0] in delims then SkipDelimiters(s[1..], delims) else s
  }

  /** Length of the leading run without delimiters. */
  function RunLength(s: string, delims: string): (n: nat)
    ensures n <= |s| && (forall k | 0 <= k < n :: s[k] !in delims) && (n < |s| ==> s[n] in delims)
    ensures s != [] && s[0] !in delims ==> n > 0
  {
    if s == [] || s[0] in delims then 0 else 1 + RunLength(s[1..], delims)
  }

  /** The maximal runs without delimiters, in order. */
  function Tokens(s: string, delims: string): seq<string>
    decreases |s|
  {
    var t := SkipDelimiters(s, delims);
    if t == [] then []
    else
      var n := RunLength(t, delims);
      [t[..n]] + Tokens(t[n..], delims)
  }

  lemma TokensSkipOne(s: string, delims: string)
    requires s != [] && s[0] in delims
    ensures Tokens(s, delims) == Tokens(s[1..], delims)
  {
  }

  lemma {:induction false} RunLengthIs(s: string, delims: string, n: nat)
    requires n <= |s| && (forall k | 0 <= k < n :: s[k] !in delims) && (n < |s| ==> s[n] in delims)
    ensures RunLength(s, delims) == n
  {
  }

  /** Cutting the string at its first delimiter leaves the first run in front of the
      cut and the other tokens behind it. */
  lemma CutAtDelimiter(s: seq<char>, s': seq<char>, i: nat, n: nat, delims: string)
    requires Terminated(s, i) && n < |CStr(s, i)|
    requires (forall k | 0 <= k < n :: CStr(s, i)[k] !in delims) && CStr(s, i)[n] in delims
    requires |s'| == |s| && s' == s[i + n := NUL]
    ensures RunLength(CStr(s, i), delims) == n
    ensures CStr(s', i) == CStr(s, i)[..n] && Terminated(s', i + n + 1)
    ensures Tokens(CStr(s', i + n + 1), delims) == Tokens(CStr(s, i)[n..], delims)
  {
    hide CStr, Tokens, RunLength;
    var t := CStr(s, i);
    RunLengthIs(t, delims, n);
    CStrCut(s, s', i, n);
    CStrDrop(s, i, n + 1);
    CStrSame(s, s', i + n + 1);
    TokensSkipOne(t[n..], delims);
    assert t[n..][1..] == t[n + 1..];
  }

  predicate IsToken(t: string, delims: string) {
    t != [] && forall c | c in t :: c !in delims
  }

  /** The characters that are no delimiters. */
  function Kept(s: string, delims: string): string {
    if s == [] then [] else (if s[0] in delims then [] else [s[0]]) + Kept(s[1..], delims)
  }

  function Joined(tokens: seq<string>): string {
    if tokens == [] then [] else tokens[0] + Joined(tokens[1..])
  }

  lemma {:induction false} KeptSkip(s: string, delims: string)
    ensures Kept(SkipDelimiters(s, delims), delims) == Kept(s, delims)
  {
    if s != [] && s[0] in delims {
      KeptSkip(s[1..], delims);
    }
  }

  lemma {:induction false} KeptRun(s: string, delims: string, n: nat)
    requires n <= |s| && forall k | 0 <= k < n :: s[k] !in delims
    ensures Kept(s, delims) == s[..n] + Kept(s[n..], delims)
  {
    if n > 0 {
      KeptRun(s[1..], delims, n - 1);
      assert s[1..][n - 1..] == s[n..];
      assert s[..n] == [s[0]] + s[1..][..n - 1];
    }
  }

  /** Tokenising loses no character but delimiters: the tokens are non-empty, free of
      delimiters, and joined they are the string without them. */
  lemma {:induction false} TokensPartition(s: string, delims: string)
    ensures forall t | t in Tokens(s, delims) :: IsToken(t, delims)
    ensures Joined(Tokens(s, delims)) == Kept(s, delims)
    decreases |s|
  {
    var t := SkipDelimiters(s, delims);
    KeptSkip(s, delims);
    if t != [] {
      var n := RunLength(t, delims);
      KeptRun(t, delims, n);
      TokensPartition(t[n..], delims);
    }
  }

  /** t is the run without delimiters at position i of s: it ends at a delimiter or an end of s on both sides. */
  ghost predicate MaximalRun(s: string, delims: string, i: int, t: string) {
    && IsToken(t, delims) && 0 <= i && i + |t| <= |s| && s[i..i + |t|] == t
    && (i > 0 ==> s[i - 1] in delims) && (i + |t| < |s| ==> s[i + |t|] in delims)
  }

  lemma {:induction false} SkippedDelimiters(s: string, delims: string)
    ensures var m := |s| - |SkipDelimiters(s, delims)|;
            SkipDelimiters(s, delims) == s[m..] && forall k | 0 <= k < m :: s[k] in delims
  {
    if s != [] && s[0] in delims {
      SkippedDelimiters(s[1..], delims);
      var m := |s[1..]| - |SkipDelimiters(s[1..], delims)|;
      assert s[1..][m..] == s[m + 1..];
      forall k | 0 <= k < m + 1
        ensures s[k] in delims
      {
        assert k > 0 ==> s[k] == s[1..][k - 1];
      }
    }
  }

  lemma RunStart(s: string, delims: string, i: int, t: string)
    requires MaximalRun(s, delims, i, t)
    ensures 0 <= i < |s| && s[i] !in delims
  {
    assert s[i] == t[0] && t[0] in t;
  }

  /** The runs of what is behind position p are the runs of the string behind it. */
  lemma RunBehind(s: string, delims: string, p: nat, i: int, t: string)
    requires p < i <= |s|
    ensures MaximalRun(s, delims, i, t) <==> MaximalRun(s[p..], delims, i - p, t)
  {
    if i + |t| <= |s| {
      assert s[p..][i - p..i - p + |t|] == s[i..i + |t|];
    }
  }

  /** After m delimiters and the n other characters behind them, a run starts where they do or
      behind the delimiter that ends them. */
  lemma RunPlaces(s: string, delims: string, m: nat, n: nat, i: int, t: string)
    requires n > 0 && m + n <= |s| && (m + n < |s| ==> s[m + n] in delims) && MaximalRun(s, delims, i, t)
    requires (forall k | 0 <= k < m :: s[k] in delims) && forall k | m <= k < m + n :: s[k] !in delims
    ensures i == m || m + n < i
  {
    RunStart(s, delims, i, t);
  }

  lemma FirstRun(s: string, delims: string, m: nat, n: nat)
    requires n > 0 && m + n <= |s| && (m + n < |s| ==> s[m + n] in delims) && (m > 0 ==> s[m - 1] in delims)
    requires forall k | m <= k < m + n :: s[k] !in delims
    ensures MaximalRun(s, delims, m, s[m..m + n])
  {
  }

  /** The tokens are the runs of the string, at these places: all of them, and in their order. */
  ghost predicate AreRuns(s: string, delims: string, tokens: seq<string>, at: seq<nat>) {
    && |at| == |tokens| && (forall k | 0 <= k < |at| :: MaximalRun(s, delims, at[k], tokens[k]))
    && (forall k, l | 0 <= k < l < |at| :: at[k] < at[l])
    && forall i, t | MaximalRun(s, delims, i, t) :: i in at
  }

  /** No token is cut short and none is missing. */
  lemma {:induction false} TokensMaximal(s: string, delims: string) returns (at: seq<nat>)
    ensures AreRuns(s, delims, Tokens(s, delims), at)
    decreases |s|
  {
    hide AreRuns, Tokens;
    var m, n := FirstToken(s, delims);
    if n == 0 {
      at := [];
      NoRuns(s, delims);
    } else {
      var rest := TokensMaximal(s[m + n..], delims);
      at := [m] + Moved(rest, m + n);
      RunsJoined(s, delims, m, n, m + n, s[m + n..], rest, Tokens(s[m + n..], delims));
    }
  }

  /** Where the first token is, if there is one */
  lemma FirstToken(s: string, delims: string) returns (m: nat, n: nat)
    ensures m + n <= |s| && (forall k | 0 <= k < m :: s[k] in delims)
    ensures n == 0 ==> m == |s| && Tokens(s, delims) == []
    ensures n > 0 ==> (forall k | m <= k < m + n :: s[k] !in delims) && (m + n < |s| ==> s[m + n] in delims)
    ensures n > 0 ==> Tokens(s, delims) == [s[m..m + n]] + Tokens(s[m + n..], delims)
  {
    hide RunLength, SkipDelimiters;
    SkippedDelimiters(s, delims);
    var t := SkipDelimiters(s, delims);
    m, n := |s| - |t|, RunLength(t, delims);
    assert t[n..] == s[m + n..] && t[..n] == s[m..m + n];
    assert forall k | m <= k < m + n :: s[k] == t[k - m];
  }

  lemma NoRuns(s: string, delims: string)
    requires forall k | 0 <= k < |s| :: s[k] in delims
    ensures AreRuns(s, delims, [], [])
  {
    hide MaximalRun;
    forall i, t
      ensures !MaximalRun(s, delims, i, t)
    {
      if MaximalRun(s, delims, i, t) {
        RunStart(s, delims, i, t);
      }
    }
  }

  function Moved(at: seq<nat>, p: nat): (r: seq<nat>)
    ensures |r| == |at| && forall k | 0 <= k < |at| :: r[k] == p + at[k]
  {
    seq(|at|, k requires 0 <= k < |at| => p + at[k])
  }

  /** The first run and those behind it, u, are the runs of s. */
  lemma RunsJoined(s: string, delims: string, m: nat, n: nat, p: nat, u: string, rest: seq<nat>, tokens: seq<string>)
    requires n > 0 && p == m + n <= |s| && (p < |s| ==> s[p] in delims) && u == s[p..]
    requires (forall k | 0 <= k < m :: s[k] in delims) && forall k | m <= k < p :: s[k] !in delims
    requires AreRuns(u, delims, tokens, rest)
    ensures AreRuns(s, delims, [s[m..p]] + tokens, [m] + Moved(rest, p))
  {
    hide MaximalRun;
    var at, all := [m] + Moved(rest, p), [s[m..p]] + tokens;
    forall k | 0 <= k < |at|
      ensures MaximalRun(s, delims, at[k], all[k]) && (k > 0 ==> at[k] == p + rest[k - 1] > p)
    {
      RunOfBoth(s, delims, m, n, p, u, rest, tokens, k);
    }
    forall i, t | MaximalRun(s, delims, i, t)
      ensures i in at
    {
      NoRunMissing(s, delims, m, n, p, u, rest, tokens, i, t);
    }
  }

  lemma RunOfBoth(s: string, delims: string, m: nat, n: nat, p: nat, u: string, rest: seq<nat>,
                  tokens: seq<string>, k: nat)
    requires n > 0 && p == m + n <= |s| && (p < |s| ==> s[p] in delims) && u == s[p..]
    requires (forall k | 0 <= k < m :: s[k] in delims) && forall k | m <= k < p :: s[k] !in delims
    requires AreRuns(u, delims, tokens, rest) && k <= |rest|
    ensures MaximalRun(s, delims, ([m] + Moved(rest, p))[k], ([s[m..p]] + tokens)[k])
    ensures k > 0 ==> ([m] + Moved(rest, p))[k] == p + rest[k - 1] > p
  {
    hide MaximalRun;
    if k == 0 {
      FirstRun(s, delims, m, n);
    } else {
      assert MaximalRun(u, delims, rest[k - 1], tokens[k - 1]);
      RunStart(u, delims, rest[k - 1], tokens[k - 1]);
      RunBehind(s, delims, p, p + rest[k - 1], tokens[k - 1]);
    }
  }

  lemma NoRunMissing(s: string, delims: string, m: nat, n: nat, p: nat, u: string, rest: seq<nat>,
                     tokens: seq<string>, i: int, t: string)
    requires n > 0 && p == m + n <= |s| && (p < |s| ==> s[p] in delims) && u == s[p..]
    requires (forall k | 0 <= k < m :: s[k] in delims) && forall k | m <= k < p :: s[k] !in delims
    requires AreRuns(u, delims, tokens, rest) && MaximalRun(s, delims, i, t)
    ensures i in [m] + Moved(rest, p)
  {
    RunPlaces(s, delims, m, n, i, t);
    RunStart(s, delims, i, t);
    hide MaximalRun;
    if i != m {
      RunBehind(s, delims, p, i, t);
      var k :| 0 <= k < |rest| && rest[k] == i - p;
      assert Moved(rest, p)[k] == i;
    }
  }

  /** The words, each with a delimiter behind it */
  function Spaced(words: seq<string>, d: char): string {
    if words == [] then [] else words[0] + [d] + Spaced(words[1..], d)
  }

  /** Tokenising words set apart by delimiters gives the words back. */
  lemma {:induction false} TokensOfSpaced(words: seq<string>, d: char, delims: string)
    requires d in delims
    requires forall w | w in words :: IsToken(w, delims)
    ensures Tokens(Spaced(words, d), delims) == words
  {
    if words != [] {
      var w, rest := words[0], Spaced(words[1..], d);
      var s := w + [d] + rest;
      assert w in words && s[0] == w[0] && s[0] in w;
      RunLengthIs(s, delims, |w|);
      assert s[..|w|] == w && s[|w|..] == [d] + rest;
      TokensSkipOne([d] + rest, delims);
      assert ([d] + rest)[1..] == rest;
      TokensOfSpaced(words[1..], d, delims);
    }
  }
}

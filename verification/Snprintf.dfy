/** Two snprintfs written independently: the kernel's (src/string/string.c:230-328) and
    the user library's (assets/programs/stdlib/src/string.c:249-316). */
module Snprintf {
  import opened Decimal

  const NUL := '\0'

  /** A variadic argument: a string, a null string, or an int. */
  datatype Arg = Str(s: string) | Null | Num(n: int)

  predicate IntInRange(n: int) {
    -INT_LIMIT < n < INT_LIMIT
  }

  /** The arguments a conversion needs are there, with the right types and no INT_MIN,
      and the format does not end in a lone percent sign. With `chars`, %c is one too. */
  predicate Matches(f: string, args: seq<Arg>, chars: bool) {
    if f == [] then true
    else if f[0] != '%' then Matches(f[1..], args, chars)
    else if |f| == 1 then false
    else if f[1] == 's' then
      args != [] && (args[0].Str? || (args[0].Null? && !chars)) && Matches(f[2..], args[1..], chars)
    else if f[1] == 'd' || (chars && f[1] == 'c') then
      args != [] && args[0].Num? && IntInRange(args[0].n) && Matches(f[2..], args[1..], chars)
    else Matches(f[2..], args, chars)
  }

  function TextOf(a: Arg): string {
    match a
    case Str(s) => s
    case Null => "(null)"
    case Num(n) => Numeral(n)
  }

  function CharOf(n: int): char {
    (n % 256) as char
  }

  /** The kernel's rendering: %s, %d, %%; anything else is printed as it is. */
  function Render(f: string, args: seq<Arg>): string
    requires Matches(f, args, false)
  {
    if f == [] then []
    else if f[0] != '%' then [f[0]] + Render(f[1..], args)
    else if f[1] == 's' || f[1] == 'd' then TextOf(args[0]) + Render(f[2..], args[1..])
    else if f[1] == '%' then ['%'] + Render(f[2..], args)
    else ['%', f[1]] + Render(f[2..], args)
  }

  /** The user library's rendering: %s, %d, %c; anything else is printed as it is. */
  function UserRender(f: string, args: seq<Arg>): string
    requires Matches(f, args, true)
  {
    if f == [] then []
    else if f[0] != '%' then [f[0]] + UserRender(f[1..], args)
    else if f[1] == 's' || f[1] == 'd' then TextOf(args[0]) + UserRender(f[2..], args[1..])
    else if f[1] == 'c' then [CharOf(args[0].n)] + UserRender(f[2..], args[1..])
    else ['%', f[1]] + UserRender(f[2..], args)
  }

  /** One step of the kernel's scan, at position p of the format and argument a. */
  lemma RenderStep(format: string, args: seq<Arg>, p: nat, a: nat)
    requires p < |format| && a <= |args| && Matches(format[p..], args[a..], false)
    ensures format[p] != '%' ==>
              && Matches(format[p + 1..], args[a..], false)
              && Render(format[p..], args[a..]) == [format[p]] + Render(format[p + 1..], args[a..])
    ensures format[p] == '%' ==> p + 1 < |format|
    ensures format[p] == '%' && (format[p + 1] == 's' || format[p + 1] == 'd') ==>
              && a < |args| && Matches(format[p + 2..], args[a + 1..], false)
              && (format[p + 1] == 'd' ==> args[a].Num? && IntInRange(args[a].n))
              && Render(format[p..], args[a..]) == TextOf(args[a]) + Render(format[p + 2..], args[a + 1..])
    ensures format[p] == '%' && format[p + 1] != 's' && format[p + 1] != 'd' ==>
              && Matches(format[p + 2..], args[a..], false)
              && Render(format[p..], args[a..])
                 == (if format[p + 1] == '%' then ['%'] else ['%', format[p + 1]]) + Render(format[p + 2..], args[a..])
  {
    var f, r := format[p..], args[a..];
    assert f[1..] == format[p + 1..];
    if |f| > 1 {
      assert f[2..] == format[p + 2..];
    }
    if |r| > 0 {
      assert r[1..] == args[a + 1..];
    }
  }

  lemma UserRenderStep(format: string, args: seq<Arg>, p: nat, a: nat)
    requires p < |format| && a <= |args| && Matches(format[p..], args[a..], true)
    ensures format[p] != '%' ==>
              && Matches(format[p + 1..], args[a..], true)
              && UserRender(format[p..], args[a..]) == [format[p]] + UserRender(format[p + 1..], args[a..])
    ensures format[p] == '%' ==> p + 1 < |format|
    ensures format[p] == '%' && (format[p + 1] == 's' || format[p + 1] == 'd' || format[p + 1] == 'c') ==>
              && a < |args| && Matches(format[p + 2..], args[a + 1..], true)
              && (format[p + 1] == 's' ==> args[a].Str?)
              && (format[p + 1] != 's' ==> args[a].Num? && IntInRange(args[a].n))
              && UserRender(format[p..], args[a..])
                 == (if format[p + 1] == 'c' then [CharOf(args[a].n)] else TextOf(args[a]))
                    + UserRender(format[p + 2..], args[a + 1..])
    ensures format[p] == '%' && format[p + 1] != 's' && format[p + 1] != 'd' && format[p + 1] != 'c' ==>
              && Matches(format[p + 2..], args[a..], true)
              && UserRender(format[p..], args[a..])
                 == ['%', format[p + 1]] + UserRender(format[p + 2..], args[a..])
  {
    var f, r := format[p..], args[a..];
    assert f[1..] == format[p + 1..];
    if |f| > 1 {
      assert f[2..] == format[p + 2..];
    }
    if |r| > 0 {
      assert r[1..] == args[a + 1..];
    }
  }

  /** No conversion that only one of the two knows. */
  predicate Shared(f: string) {
    if f == [] then true
    else if f[0] != '%' then Shared(f[1..])
    else |f| > 1 && f[1] != '%' && f[1] != 'c' && Shared(f[2..])
  }

  lemma {:induction false} RenderingsAgree(f: string, args: seq<Arg>)
    requires Shared(f) && Matches(f, args, true)
    ensures Matches(f, args, false) && Render(f, args) == UserRender(f, args)
    decreases |f|
  {
    if f != [] {
      if f[0] != '%' {
        RenderingsAgree(f[1..], args);
      } else if f[1] == 's' || f[1] == 'd' {
        RenderingsAgree(f[2..], args[1..]);
      } else {
        RenderingsAgree(f[2..], args);
      }
    }
  }

  // ------------------------------------------------------------- what is printed

  /** An element of a format together with its argument; a character is the low byte of an int. */
  datatype Element =
    | Plain(c: char)
    | Text(s: string)
    | NullText
    | Number(n: int)
    | Character(c: char, n: int)
    | Percent
    | Unknown(c: char)

  /** Which elements the two know; what follows an unknown percent sign is printed with it. */
  predicate Known(e: Element, chars: bool) {
    match e
    case Plain(c) => c != '%'
    case Text(_) => true
    case NullText => !chars
    case Number(n) => IntInRange(n)
    case Character(c, n) => chars && IntInRange(n) && c as int < 256 && (n - c as int) % 256 == 0
    case Percent => !chars
    case Unknown(c) => c != 's' && c != 'd' && (if chars then c != 'c' else c != '%')
  }

  function Written(e: Element): string {
    match e
    case Plain(c) => [c]
    case Text(_) => "%s"
    case NullText => "%s"
    case Number(_) => "%d"
    case Character(_, _) => "%c"
    case Percent => "%%"
    case Unknown(c) => ['%', c]
  }

  function Given(e: Element): seq<Arg> {
    match e
    case Text(s) => [Str(s)]
    case NullText => [Null]
    case Number(n) => [Num(n)]
    case Character(_, n) => [Num(n)]
    case _ => []
  }

  function Printed(e: Element): string {
    match e
    case Plain(c) => [c]
    case Text(s) => s
    case NullText => "(null)"
    case Number(n) => Numeral(n)
    case Character(c, _) => [c]
    case Percent => "%"
    case Unknown(c) => ['%', c]
  }

  /** Each element is printed with its own argument's characters, and the rest as without it. */
  lemma ElementPrinted(e: Element, f: string, args: seq<Arg>)
    ensures Known(e, false) && Matches(f, args, false) ==>
              && Matches(Written(e) + f, Given(e) + args, false)
              && Render(Written(e) + f, Given(e) + args) == Printed(e) + Render(f, args)
    ensures Known(e, true) && Matches(f, args, true) ==>
              && Matches(Written(e) + f, Given(e) + args, true)
              && UserRender(Written(e) + f, Given(e) + args) == Printed(e) + UserRender(f, args)
  {
    var format, all := Written(e) + f, Given(e) + args;
    assert format[|Written(e)|..] == f && all[|Given(e)|..] == args;
  }

  /** A format without percent signs is printed as it is. */
  lemma {:induction false} PlainFormat(f: string, args: seq<Arg>)
    requires '%' !in f
    ensures Matches(f, args, false) && Render(f, args) == f
    ensures Matches(f, args, true) && UserRender(f, args) == f
  {
    if f != [] {
      PlainFormat(f[1..], args);
      ElementPrinted(Plain(f[0]), f[1..], args);
      assert [f[0]] + f[1..] == f && [] + args == args;
    }
  }

  function WrittenAll(es: seq<Element>): string {
    if es == [] then [] else Written(es[0]) + WrittenAll(es[1..])
  }

  function GivenAll(es: seq<Element>): seq<Arg> {
    if es == [] then [] else Given(es[0]) + GivenAll(es[1..])
  }

  function PrintedAll(es: seq<Element>): string {
    if es == [] then [] else Printed(es[0]) + PrintedAll(es[1..])
  }

  /** The first element of a format */
  function FirstElement(f: string, args: seq<Arg>, chars: bool): Element
    requires Matches(f, args, chars) && f != []
  {
    if f[0] != '%' then Plain(f[0])
    else if f[1] == 's' then (match args[0] case Str(s) => Text(s) case _ => NullText)
    else if f[1] == 'd' then Number(args[0].n)
    else if chars && f[1] == 'c' then Character(CharOf(args[0].n), args[0].n)
    else if !chars && f[1] == '%' then Percent
    else Unknown(f[1])
  }

  lemma FirstElementIs(f: string, args: seq<Arg>, chars: bool)
    requires Matches(f, args, chars) && f != []
    ensures var e := FirstElement(f, args, chars);
            && Known(e, chars) && 0 < |Written(e)| <= |f| && |Given(e)| <= |args|
            && Written(e) + f[|Written(e)|..] == f && Given(e) + args[|Given(e)|..] == args
            && Matches(f[|Written(e)|..], args[|Given(e)|..], chars)
  {
  }

  /** Every format and its arguments are such elements, and what is printed is theirs in order:
      the kernel's snprintf ... */
  lemma {:induction false} RenderPrints(f: string, args: seq<Arg>) returns (es: seq<Element>, rest: seq<Arg>)
    requires Matches(f, args, false)
    ensures WrittenAll(es) == f && GivenAll(es) + rest == args && forall e | e in es :: Known(e, false)
    ensures Render(f, args) == PrintedAll(es)
    decreases |f|
  {
    if f == [] {
      return [], args;
    }
    var e := FirstElement(f, args, false);
    FirstElementIs(f, args, false);
    hide Matches, Render, Known, Printed, Written, Given, FirstElement;
    var f', args' := f[|Written(e)|..], args[|Given(e)|..];
    es, rest := RenderPrints(f', args');
    ElementPrinted(e, f', args');
    ElementInFront(e, es, rest);
    es := [e] + es;
  }

  /** ... and the user library's. */
  lemma {:induction false} UserRenderPrints(f: string, args: seq<Arg>) returns (es: seq<Element>, rest: seq<Arg>)
    requires Matches(f, args, true)
    ensures WrittenAll(es) == f && GivenAll(es) + rest == args && forall e | e in es :: Known(e, true)
    ensures UserRender(f, args) == PrintedAll(es)
    decreases |f|
  {
    if f == [] {
      return [], args;
    }
    var e := FirstElement(f, args, true);
    FirstElementIs(f, args, true);
    hide Matches, UserRender, Known, Printed, Written, Given, FirstElement;
    var f', args' := f[|Written(e)|..], args[|Given(e)|..];
    es, rest := UserRenderPrints(f', args');
    ElementPrinted(e, f', args');
    ElementInFront(e, es, rest);
    es := [e] + es;
  }

  lemma ElementInFront(e: Element, es: seq<Element>, rest: seq<Arg>)
    ensures WrittenAll([e] + es) == Written(e) + WrittenAll(es)
    ensures GivenAll([e] + es) + rest == Given(e) + (GivenAll(es) + rest)
    ensures PrintedAll([e] + es) == Printed(e) + PrintedAll(es)
  {
    assert ([e] + es)[1..] == es;
  }

  function Min(a: int, b: int): int {
    if a < b then a else b
  }

  /** The longest prefix of the text that fits in front of a NUL. */
  function Fitting(text: string, size: int): (r: string)
    requires size >= 1
    ensures r <= text && |r| < size && (r == text || |r| == size - 1)
  {
    text[..Min(|text|, size - 1)]
  }

  lemma FittingPrefix(full: string, text: string, rest: string, size: int)
    requires size >= 1 && full == text + rest && (rest == [] || |text| >= size - 1)
    ensures Fitting(full, size) == text[..Min(|text|, size - 1)]
  {
  }

  lemma RenderNothing(f: string, args: seq<Arg>)
    ensures f == [] && Matches(f, args, false) ==> Render(f, args) == []
    ensures f == [] && Matches(f, args, true) ==> UserRender(f, args) == []
  {
  }

  /** The buffer holds what fits of the text so far; beyond the size nothing changed. */
  ghost predicate Holds(s: seq<char>, s0: seq<char>, text: string, size: int) {
    && |s| == |s0| && 0 <= size <= |s|
    && (forall k | 0 <= k < |text| && k < size - 1 :: s[k] == text[k])
    && (forall k | size <= k < |s| :: s[k] == s0[k])
  }

  // ----------------------------------------------------------------- kernel

  /** The kernel's output step: a character is counted, and stored while it leaves room for a NUL. */
  method Put(str: array<char>, size: nat, pos: nat, c: char, ghost text: string, ghost s0: seq<char>)
    returns (next: nat)
    requires size <= str.Length && pos == |text| && Holds(str[..], s0, text, size)
    modifies str
    ensures next == pos + 1 && Holds(str[..], s0, text + [c], size)
  {
    if pos + 1 < size {
      str[pos] := c;
    }
    next := pos + 1;
  }

  method PutAll(str: array<char>, size: nat, pos: nat, s: string, ghost text: string, ghost s0: seq<char>)
    returns (next: nat)
    requires size <= str.Length && pos == |text| && Holds(str[..], s0, text, size)
    modifies str
    ensures next == pos + |s| && Holds(str[..], s0, text + s, size)
  {
    hide Holds;
    next := pos;
    assert text + s[..0] == text;
    for i := 0 to |s|
      invariant next == pos + i && Holds(str[..], s0, text + s[..i], size)
    {
      next := Put(str, size, next, s[i], text + s[..i], s0);
      assert text + s[..i] + [s[i]] == text + s[..i + 1];
    }
    assert s[..|s|] == s;
  }

  /** strlen of a numeral */
  method Strlen(buffer: array<char>, ghost text: string) returns (len: nat)
    requires |text| < buffer.Length && buffer[..|text|] == text && NUL !in text && buffer[|text|] == NUL
    ensures len == |text|
  {
    forall k | 0 <= k < |text|
      ensures buffer[k] != NUL
    {
      assert buffer[..|text|][k] == text[k];
    }
    len := 0;
    while buffer[len] != NUL
      invariant 0 <= len <= |text|
      decreases |text| - len
    {
      len := len + 1;
    }
  }

  /** The kernel's %d */
  method PutNumber(str: array<char>, size: nat, pos: nat, n: int, ghost text: string, ghost s0: seq<char>)
    returns (next: nat)
    requires size <= str.Length && pos == |text| && Holds(str[..], s0, text, size) && IntInRange(n)
    modifies str
    ensures next == pos + |Numeral(n)| && Holds(str[..], s0, text + Numeral(n), size)
  {
    var numbuf := new char[32];
    IntToStr(n, numbuf);
    NumeralHasNoNul(n);
    var len := Strlen(numbuf, Numeral(n));
    next := PutAll(str, size, pos, numbuf[..len], text, s0);
  }

  /** One round of the kernel's loop: the format element at p, rendered as `piece`. */
  method KernelElement(str: array<char>, size: nat, format: string, args: seq<Arg>, p: nat, a: nat, pos: nat,
                       ghost text: string, ghost s0: seq<char>)
    returns (p': nat, a': nat, pos': nat, ghost piece: string)
    requires p < |format| && a <= |args| && Matches(format[p..], args[a..], false)
    requires size <= str.Length && pos == |text| && Holds(str[..], s0, text, size)
    modifies str
    ensures p < p' <= |format| && a <= a' <= |args| && Matches(format[p'..], args[a'..], false)
    ensures Render(format[p..], args[a..]) == piece + Render(format[p'..], args[a'..])
    ensures pos' == |text| + |piece| && Holds(str[..], s0, text + piece, size)
  {
    hide Holds, Render, Matches;
    RenderStep(format, args, p, a);
    p', a', pos' := p, a, pos;
    if format[p'] != '%' {
      piece := [format[p']];
      pos' := Put(str, size, pos', format[p'], text, s0);
    } else {
      p' := p' + 1;
      if format[p'] == 's' {
        piece := TextOf(args[a']);
        pos' := PutAll(str, size, pos', TextOf(args[a']), text, s0);
        a' := a' + 1;
      } else if format[p'] == 'd' {
        piece := TextOf(args[a']);
        pos' := PutNumber(str, size, pos', args[a'].n, text, s0);
        a' := a' + 1;
      } else if format[p'] == '%' {
        piece := ['%'];
        pos' := Put(str, size, pos', '%', text, s0);
      } else {
        piece := ['%', format[p']];
        pos' := Put(str, size, pos', '%', text, s0);
        pos' := Put(str, size, pos', format[p'], text + ['%'], s0);
        assert text + ['%'] + [format[p']] == text + piece;
      }
    }
    p' := p' + 1;
  }

  /** The kernel's snprintf: the length of the whole rendering is returned, and its
      longest fitting prefix is written, with a NUL. */
  method KernelSnprintf(str: array<char>, size: nat, format: string, args: seq<Arg>) returns (totalLen: int)
    requires size <= str.Length && Matches(format, args, false)
    modifies str
    ensures totalLen == |Render(format, args)|
    ensures size > 0 ==> var out := Fitting(Render(format, args), size);
                         str[..|out|] == out && str[|out|] == NUL
    ensures forall k | size <= k < str.Length :: str[k] == old(str[k])
  {
    hide Render, Matches, Fitting;
    ghost var s0, text: string := str[..], [];
    var pos, p, a := 0, 0, 0;
    assert format[p..] == format && args[a..] == args;
    while p < |format|
      invariant 0 <= p <= |format| && 0 <= a <= |args| && pos == |text|
      invariant Matches(format[p..], args[a..], false)
      invariant text + Render(format[p..], args[a..]) == Render(format, args)
      invariant Holds(str[..], s0, text, size)
      decreases |format| - p
    {
      hide Holds;
      ghost var piece;
      p, a, pos, piece := KernelElement(str, size, format, args, p, a, pos, text, s0);
      assert text + (piece + Render(format[p..], args[a..])) == text + piece + Render(format[p..], args[a..]);
      text := text + piece;
    }
    RenderNothing(format[p..], args[a..]);
    if size > 0 {
      FittingPrefix(Render(format, args), text, Render(format[p..], args[a..]), size);
      if pos < size {
        str[pos] := NUL;
      } else {
        str[size - 1] := NUL;
      }
    }
    totalLen := pos;
  }

  // ------------------------------------------------------------------- user

  /** The buffer holds the fitting prefix of the text, which ends at index i. */
  ghost predicate Filled(s: seq<char>, s0: seq<char>, text: string, size: int, i: int) {
    && |s| == |s0| && 1 <= size <= |s| && i == Min(|text|, size - 1)
    && (forall k | 0 <= k < i :: s[k] == text[k])
    && (forall k | size <= k < |s| :: s[k] == s0[k])
  }

  /** The user library's output step: a character is stored while it leaves room for a NUL. */
  method UserPut(buffer: array<char>, size: nat, i: nat, c: char, ghost text: string, ghost s0: seq<char>)
    returns (next: nat)
    requires Filled(buffer[..], s0, text, size, i)
    modifies buffer
    ensures Filled(buffer[..], s0, text + [c], size, next)
  {
    next := i;
    if i < size - 1 {
      buffer[i] := c;
      next := i + 1;
    }
  }

  /** The user library's %s: the string, as far as there is room */
  method UserPutAll(buffer: array<char>, size: nat, i: nat, s: string, ghost text: string, ghost s0: seq<char>)
    returns (next: nat)
    requires Filled(buffer[..], s0, text, size, i)
    modifies buffer
    ensures Filled(buffer[..], s0, text + s, size, next)
  {
    next := i;
    var j := 0;
    while j < |s| && next < size - 1
      invariant 0 <= j <= |s| && Filled(buffer[..], s0, text + s[..j], size, next)
    {
      next := UserPut(buffer, size, next, s[j], text + s[..j], s0);
      assert text + s[..j] + [s[j]] == text + s[..j + 1];
      j := j + 1;
    }
    assert s[..|s|] == s;
  }

  /** The user library's do-while over the digits */
  method UserDigits(val: nat, num: array<char>) returns (n: nat)
    requires val < INT_LIMIT && num.Length == 12
    modifies num
    ensures n == |Numeral(val)| <= 12 && Reversed(num[..n]) == Numeral(val)
  {
    hide Digits, Numeral, Reversed, Pow10, DigitChar;
    num[0] := DigitChar(val % 10);
    n := 1;
    var v := val / 10;
    FirstDigit(val, num[..1]);
    while v > 0 && n < 12
      invariant 1 <= n <= 10 && 0 <= v < Pow10(10 - n)
      invariant Numeral(val) == Digits(v) + Reversed(num[..n])
      decreases v
    {
      ghost var before := num[..n];
      num[n] := DigitChar(v % 10);
      NextDigit(v, n, before);
      n := n + 1;
      assert num[..n] == before + [DigitChar(v % 10)];
      v := v / 10;
    }
    NoDigitsLeft(v, n, Reversed(num[..n]));
  }

  lemma FirstDigit(val: nat, s: string)
    requires val < INT_LIMIT && s == [DigitChar(val % 10)]
    ensures val / 10 < Pow10(9) && Numeral(val) == Digits(val / 10) + Reversed(s)
  {
    TenDigits();
    assert Reversed(s) == s;
    if val == 0 {
      assert Digits(0) + s == "0";
    }
  }

  lemma NextDigit(v: nat, n: nat, s: string)
    requires n <= 10 && 0 < v < Pow10(10 - n)
    ensures n < 10 && v / 10 < Pow10(9 - n)
    ensures Digits(v) + Reversed(s) == Digits(v / 10) + Reversed(s + [DigitChar(v % 10)])
  {
    var c := DigitChar(v % 10);
    ReversedSnoc(s, c);
    assert Digits(v / 10) + [c] + Reversed(s) == Digits(v / 10) + ([c] + Reversed(s));
  }

  lemma NoDigitsLeft(v: nat, n: nat, s: string)
    requires v == 0 || n >= 12
    ensures v == 0 ==> Digits(v) + s == s
  {
  }

  lemma {:induction false} ReversedSnoc(s: string, c: char)
    ensures Reversed(s + [c]) == [c] + Reversed(s)
  {
    if s != [] {
      ReversedSnoc(s[1..], c);
      assert (s + [c])[1..] == s[1..] + [c];
    }
  }

  /** The user library's %d */
  method UserPutNumber(buffer: array<char>, size: nat, i: nat, n: int, ghost text: string, ghost s0: seq<char>)
    returns (next: nat)
    requires Filled(buffer[..], s0, text, size, i) && IntInRange(n)
    modifies buffer
    ensures Filled(buffer[..], s0, text + Numeral(n), size, next)
  {
    hide Filled, Numeral, Reversed;
    var num := new char[12];
    ghost var done := text;
    next := i;
    var val := n;
    if val < 0 {
      next := UserPut(buffer, size, next, '-', text, s0);
      done := text + ['-'];
      val := -val;
    }
    var count := UserDigits(val, num);
    SignedNumeral(text, n);
    next := UserPutReversed(buffer, size, next, num, count, done, s0);
  }

  lemma SignedNumeral(text: string, n: int)
    ensures n < 0 ==> text + ['-'] + Numeral(-n) == text + Numeral(n)
  {
    if n < 0 {
      assert Numeral(n) == ['-'] + Numeral(-n);
      assert text + ['-'] + Numeral(-n) == text + (['-'] + Numeral(-n));
    }
  }

  /** The digits collected, last one first, as far as there is room. The loop may stop early,
      but only when the buffer is full. */
  method UserPutReversed(buffer: array<char>, size: nat, i: nat, num: array<char>, count: nat,
                         ghost text: string, ghost s0: seq<char>)
    returns (next: nat)
    requires Filled(buffer[..], s0, text, size, i) && count <= num.Length && num != buffer
    modifies buffer
    ensures Filled(buffer[..], s0, text + Reversed(num[..count]), size, next)
  {
    ghost var digits := Reversed(num[..count]);
    assert digits[..0] == [] && text + [] == text;
    next := i;
    var n := count;
    while n > 0 && next < size - 1
      invariant 0 <= n <= count && Filled(buffer[..], s0, text + digits[..count - n], size, next)
      invariant digits == Reversed(num[..count])
    {
      n := n - 1;
      assert digits[count - 1 - n] == num[n];
      next := UserPut(buffer, size, next, num[n], text + digits[..count - 1 - n], s0);
      assert text + digits[..count - 1 - n] + [digits[count - 1 - n]] == text + digits[..count - n];
    }
    assert n == 0 ==> digits[..count] == digits;
  }

  /** One round of the user library's loop */
  method UserElement(buffer: array<char>, size: nat, format: string, args: seq<Arg>, p: nat, a: nat, i: nat,
                     ghost text: string, ghost s0: seq<char>)
    returns (p': nat, a': nat, i': nat, ghost piece: string)
    requires p < |format| && a <= |args| && Matches(format[p..], args[a..], true)
    requires Filled(buffer[..], s0, text, size, i)
    modifies buffer
    ensures p < p' <= |format| && a <= a' <= |args| && Matches(format[p'..], args[a'..], true)
    ensures UserRender(format[p..], args[a..]) == piece + UserRender(format[p'..], args[a'..])
    ensures Filled(buffer[..], s0, text + piece, size, i')
  {
    hide Filled, UserRender, Matches;
    UserRenderStep(format, args, p, a);
    p', a', i' := p, a, i;
    if format[p'] == '%' {
      p' := p' + 1;
      if format[p'] == 's' {
        piece := args[a'].s;
        i' := UserPutAll(buffer, size, i', args[a'].s, text, s0);
        a' := a' + 1;
      } else if format[p'] == 'd' {
        piece := Numeral(args[a'].n);
        i' := UserPutNumber(buffer, size, i', args[a'].n, text, s0);
        a' := a' + 1;
      } else if format[p'] == 'c' {
        piece := [CharOf(args[a'].n)];
        i' := UserPut(buffer, size, i', CharOf(args[a'].n), text, s0);
        a' := a' + 1;
      } else {
        piece := ['%', format[p']];
        i' := UserPut(buffer, size, i', '%', text, s0);
        i' := UserPut(buffer, size, i', format[p'], text + ['%'], s0);
        assert text + ['%'] + [format[p']] == text + piece;
      }
    } else {
      piece := [format[p']];
      i' := UserPut(buffer, size, i', format[p'], text, s0);
    }
    p' := p' + 1;
  }

  /** The user library's snprintf, for size >= 1: the longest fitting prefix is written,
      with a NUL, and its length is returned. */
  method UserSnprintf(buffer: array<char>, size: nat, format: string, args: seq<Arg>) returns (written: int)
    requires 1 <= size <= buffer.Length && Matches(format, args, true)
    modifies buffer
    ensures var out := Fitting(UserRender(format, args), size);
            written == |out| && buffer[..|out|] == out && buffer[|out|] == NUL
    ensures forall k | size <= k < buffer.Length :: buffer[k] == old(buffer[k])
  {
    hide UserRender, Matches, Fitting;
    ghost var s0, text: string := buffer[..], [];
    var i, p, a := 0, 0, 0;
    assert format[p..] == format && args[a..] == args;
    while p < |format| && i < size - 1
      invariant 0 <= p <= |format| && 0 <= a <= |args| && 0 <= i
      invariant Matches(format[p..], args[a..], true)
      invariant text + UserRender(format[p..], args[a..]) == UserRender(format, args)
      invariant Filled(buffer[..], s0, text, size, i)
      decreases |format| - p
    {
      hide Filled;
      ghost var piece;
      p, a, i, piece := UserElement(buffer, size, format, args, p, a, i, text, s0);
      assert text + (piece + UserRender(format[p..], args[a..])) == text + piece + UserRender(format[p..], args[a..]);
      text := text + piece;
    }
    RenderNothing(format[p..], args[a..]);
    FittingPrefix(UserRender(format, args), text, UserRender(format[p..], args[a..]), size);
    buffer[i] := NUL;
    written := i;
  }

  /** On a format without %% and %c the two leave the same bytes. */
  lemma SnprintfsAgree(s: seq<char>, s': seq<char>, size: nat, format: string, args: seq<Arg>)
    requires 1 <= size && Shared(format) && Matches(format, args, true) && Matches(format, args, false)
    requires var out := Fitting(Render(format, args), size);
             |out| < |s| && s[..|out|] == out && s[|out|] == NUL
    requires var out := Fitting(UserRender(format, args), size);
             |out| < |s'| && s'[..|out|] == out && s'[|out|] == NUL
    ensures var n := |Fitting(Render(format, args), size)|;
            n < |s| && n < |s'| && s[..n + 1] == s'[..n + 1]
  {
    hide Render, UserRender, Matches, Shared, Fitting;
    RenderingsAgree(format, args);
    var n := |Fitting(Render(format, args), size)|;
    assert s[..n + 1] == s[..n] + [s[n]] && s'[..n + 1] == s'[..n] + [s'[n]];
  }
}

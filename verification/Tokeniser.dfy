/** The user library's tokeniser: strtok with its global `sp`, and vios_parse_command
    (assets/programs/stdlib/src/string.c:138-228, assets/programs/stdlib/src/vios.c:4-50). */
module Tokeniser {
  import opened CStrings

  /** The global `sp` of strtok: null, or a position in the buffer being scanned. */
  class Strtok {
    var buffer: array?<char>
    var sp: nat

    constructor ()
      ensures buffer == null
    {
      buffer, sp := null, 0;
    }

    /** An unfinished scan points into a terminated string. */
    ghost predicate Valid()
      reads this, buffer
    {
      buffer == null || Terminated(buffer[..], sp)
    }

    /** The string still to be scanned */
    ghost function Pending(): string
      reads this, buffer
    {
      if buffer == null then [] else CStr(buffer[..], sp)
    }

    /** The inner loop of both scans: where the character is among the delimiters */
    static method FindDelimiter(c: char, delimiters: string) returns (i: nat)
      ensures i <= |delimiters| && (i < |delimiters| <==> c in delimiters)
    {
      i := 0;
      while i < |delimiters| && c != delimiters[i]
        invariant 0 <= i <= |delimiters| && forall k | 0 <= k < i :: c != delimiters[k]
      {
        i := i + 1;
      }
    }

    /** The first loop of strtok: past the leading delimiters. */
    method SkipLeading(delimiters: string) returns (start: nat)
      requires buffer != null && Valid() && NUL !in delimiters
      ensures Terminated(buffer[..], start) && sp <= start
      ensures CStr(buffer[..], start) == SkipDelimiters(Pending(), delimiters)
    {
      start := sp;
      while true
        invariant Terminated(buffer[..], start) && sp <= start
        invariant SkipDelimiters(CStr(buffer[..], start), delimiters) == SkipDelimiters(Pending(), delimiters)
        decreases buffer.Length - start
      {
        var i := FindDelimiter(buffer[start], delimiters);
        if i == |delimiters| {
          break;
        }
        start := start + 1;
      }
    }

    /** The second loop of strtok: to the end of the token, which is cut off by a NUL
        in place of the delimiter behind it. */
    method CutToken(delimiters: string, start: nat)
      requires buffer != null && start < buffer.Length && NUL !in delimiters
      requires Terminated(buffer[..], start) && buffer[start] != NUL && buffer[start] !in delimiters
      modifies this`sp, buffer
      ensures Terminated(buffer[..], sp) && start < sp <= buffer.Length
      ensures var t := old(CStr(buffer[..], start)); var n := RunLength(t, delimiters);
              && CStr(buffer[..], start) == t[..n] && start + n <= sp
              && Tokens(CStr(buffer[..], sp), delimiters) == Tokens(t[n..], delimiters)
      ensures forall k | 0 <= k < buffer.Length && (k < start || sp <= k) :: buffer[k] == old(buffer[k])
    {
      ghost var s, t := buffer[..], CStr(buffer[..], start);
      CStrChars(s, start);
      hide CStr, Tokens, RunLength, Terminated;
      sp := start;
      while buffer[sp] != NUL
        invariant start <= sp <= start + |t| < buffer.Length
        invariant buffer[..] == s
        invariant forall k | 0 <= k < sp - start :: t[k] !in delimiters
        decreases buffer.Length - sp
      {
        var i := FindDelimiter(buffer[sp], delimiters);
        if i < |delimiters| {
          Cut(delimiters, start, sp - start);
          return;
        }
        sp := sp + 1;
      }
      WholeToken(s, start, delimiters);
    }

    /** A NUL goes in place of the delimiter n characters behind the start, and the scan is
        to go on behind it. */
    method Cut(delimiters: string, start: nat, ghost n: nat)
      requires buffer != null && NUL !in delimiters && Terminated(buffer[..], start) && sp == start + n
      requires n < |CStr(buffer[..], start)| && sp < buffer.Length
      requires (forall k | 0 <= k < n :: CStr(buffer[..], start)[k] !in delimiters)
      requires CStr(buffer[..], start)[n] in delimiters
      modifies this`sp, buffer
      ensures sp == start + n + 1 <= buffer.Length && Terminated(buffer[..], sp)
      ensures var t := old(CStr(buffer[..], start));
              && n == RunLength(t, delimiters) && CStr(buffer[..], start) == t[..n]
              && Tokens(CStr(buffer[..], sp), delimiters) == Tokens(t[n..], delimiters)
      ensures buffer[..] == old(buffer[..])[start + n := NUL]
    {
      hide CStr, Tokens, RunLength, Terminated;
      ghost var s := buffer[..];
      buffer[sp] := NUL;
      CutAtDelimiter(s, buffer[..], start, n, delimiters);
      sp := sp + 1;
    }

    /** strtok: the first token of what is pending, and the rest stays pending. A new
        string is looked at only when no scan is unfinished. The result is an index
        into the scanned buffer, or -1 for null. */
    method Next(str: array?<char>, delimiters: string) returns (token: int)
      requires NUL !in delimiters && Valid()
      requires buffer == null && str != null ==> Terminated(str[..], 0)
      modifies this, buffer, str
      ensures Valid()
      ensures var from := if old(buffer) == null then str else old(buffer);
              var text := if old(buffer) == null && str != null then old(CStr(str[..], 0)) else old(Pending());
              if Tokens(text, delimiters) == [] then
                token == -1 && buffer == null
              else
                && buffer == from && from != null && 0 <= token < buffer.Length
                && CStr(buffer[..], token) == Tokens(text, delimiters)[0]
                && Terminated(buffer[..], token) && token + |CStr(buffer[..], token)| <= sp
                && Tokens(Pending(), delimiters) == Tokens(text, delimiters)[1..]
    {
      if str == null && buffer == null {
        return -1;
      }
      if buffer == null {
        buffer, sp := str, 0;
      }
      ghost var text := Pending();
      var start := SkipLeading(delimiters);
      ghost var t := CStr(buffer[..], start);
      sp := start;
      if buffer[sp] == NUL {
        buffer := null;
        return -1;
      }
      CutToken(delimiters, start);
      return start;
    }
  }

  /** A token that ends with the string: nothing is cut, and nothing is pending behind it. */
  lemma WholeToken(s: seq<char>, start: nat, delims: string)
    requires Terminated(s, start) && forall c | c in CStr(s, start) :: c !in delims
    ensures var t := CStr(s, start);
            && start + |t| < |s| && RunLength(t, delims) == |t| && t == t[..|t|]
            && Terminated(s, start + |t|) && CStr(s, start + |t|) == t[|t|..]
  {
    CStrChars(s, start);
    hide CStr;
    RunLengthIs(CStr(s, start), delims, |CStr(s, start)|);
    CStrDrop(s, start, |CStr(s, start)|);
  }

  /** The first n characters, or all */
  function Take(s: string, n: nat): (r: string)
    ensures r <= s && |r| <= n && (|r| < n ==> r == s)
  {
    if |s| <= n then s else s[..n]
  }

  /** The user library's strncpy: at most count - 1 characters, and a NUL. */
  method Strncpy(dest: array<char>, src: array<char>, at: nat, count: nat)
    requires 0 < count <= dest.Length && dest != src && Terminated(src[..], at)
    modifies dest
    ensures CStr(dest[..], 0) == Take(CStr(src[..], at), count - 1) && Terminated(dest[..], 0)
  {
    ghost var t := CStr(src[..], at);
    CStrChars(src[..], at);
    hide CStr;
    var i := 0;
    while i < count - 1
      invariant 0 <= i <= count - 1 && i <= |t|
      invariant forall j | 0 <= j < i :: dest[j] == t[j] && dest[j] != NUL
    {
      if src[at + i] == NUL {
        break;
      }
      dest[i] := src[at + i];
      i := i + 1;
    }
    dest[i] := NUL;
    assert i == |Take(t, count - 1)|;
    CStrIs(dest[..], 0, Take(t, count - 1));
  }

  // --------------------------------------------------------- the arguments

  const COMMAND_SIZE := 1025
  const ARGUMENT_SIZE := 512

  /** struct command_argument */
  class CommandArgument {
    const argument: array<char>
    var next: CommandArgument?

    constructor ()
      ensures next == null && fresh(argument) && argument.Length == ARGUMENT_SIZE
    {
      argument := new char[ARGUMENT_SIZE];
      next := null;
    }
  }

  /** The nodes are linked in this order, starting from root. */
  ghost predicate Linked(root: CommandArgument?, nodes: seq<CommandArgument>)
    reads nodes
  {
    && root == (if nodes == [] then null else nodes[0])
    && (forall k | 0 <= k < |nodes| :: nodes[k].next == if k + 1 < |nodes| then nodes[k + 1] else null)
    && (forall j, k | 0 <= j < k < |nodes| :: nodes[j] != nodes[k])
  }

  /** Node k holds token k, cut to what fits its buffer. */
  ghost predicate Holds(nodes: seq<CommandArgument>, tokens: seq<string>)
    reads set n | n in nodes :: n.argument
  {
    && |nodes| <= |tokens|
    && forall k | 0 <= k < |nodes| :: CStr(nodes[k].argument[..], 0) == Take(tokens[k], 511)
  }

  /** vios_malloc of a node holding the token; it succeeds `budget` more times. */
  method NewArgument(buffer: array<char>, token: nat, budget: nat)
    returns (node: CommandArgument?, left: nat)
    requires Terminated(buffer[..], token)
    ensures budget == 0 ==> node == null && left == 0
    ensures budget > 0 ==> node != null && left == budget - 1
    ensures node != null ==>
              && fresh(node) && fresh(node.argument) && node.next == null
              && CStr(node.argument[..], 0) == Take(CStr(buffer[..], token), ARGUMENT_SIZE - 1)
  {
    if budget == 0 {
      return null, 0;
    }
    node := new CommandArgument();
    left := budget - 1;
    Strncpy(node.argument, buffer, token, ARGUMENT_SIZE);
    CStrChars(node.argument[..], 0);
    ghost var s := node.argument[..];
    CStrSame(s, s[ARGUMENT_SIZE - 1 := NUL], 0);
    node.argument[ARGUMENT_SIZE - 1] := NUL;
    assert node.argument[..] == s[ARGUMENT_SIZE - 1 := NUL];
  }

  /** The tokens vios_parse_command works on: of the first 1024 characters. */
  function CommandTokens(command: string): seq<string> {
    Tokens(Take(command, 1024), " ")
  }

  /** What the last call of strtok left: token n and the tokens behind it, or no more tokens. */
  ghost predicate Scanned(strtok: Strtok, scommand: array<char>, token: int, tokens: seq<string>, n: nat)
    reads strtok, strtok.buffer, scommand
  {
    if token == -1 then
      strtok.buffer == null && n == |tokens|
    else
      && strtok.buffer == scommand && strtok.Valid()
      && 0 <= token && Terminated(scommand[..], token)
      && n < |tokens| && CStr(scommand[..], token) == tokens[n]
      && Tokens(strtok.Pending(), " ") == tokens[n + 1..]
  }

  /** A call of strtok that goes on with the unfinished scan, at spaces */
  method NextToken(strtok: Strtok, scommand: array<char>, token: int, ghost tokens: seq<string>, ghost n: nat)
    returns (next: int)
    requires token != -1 && Scanned(strtok, scommand, token, tokens, n)
    modifies strtok, scommand
    ensures Scanned(strtok, scommand, next, tokens, n + 1)
  {
    hide CStr, Tokens;
    next := strtok.Next(null, " ");
  }

  /** The list built so far: linked from root, one node a token, no buffer shared. */
  ghost predicate Listed(root: CommandArgument?, nodes: seq<CommandArgument>, tokens: seq<string>,
                         scommand: array<char>)
    reads nodes, set n | n in nodes :: n.argument
  {
    && 0 < |nodes| && Linked(root, nodes) && Holds(nodes, tokens)
    && forall n | n in nodes :: n.argument != scommand
  }

  /** A node for the token just scanned becomes the successor of the current one. */
  method Append(scommand: array<char>, ghost root: CommandArgument?, current: CommandArgument,
                token: nat, budget: nat, ghost nodes: seq<CommandArgument>, ghost tokens: seq<string>)
    returns (node: CommandArgument?, left: nat)
    requires Terminated(scommand[..], token)
    requires |nodes| < |tokens| && Listed(root, nodes, tokens, scommand)
    requires current == nodes[|nodes| - 1] && CStr(scommand[..], token) == tokens[|nodes|]
    modifies current`next
    ensures budget == 0 ==> node == null && left == 0 && Listed(root, nodes, tokens, scommand)
    ensures budget > 0 ==> node != null && left == budget - 1 && fresh(node)
                           && Listed(root, nodes + [node], tokens, scommand)
  {
    hide CStr;
    node, left := NewArgument(scommand, token, budget);
    if node != null {
      current.next := node;
      ghost var nodes' := nodes + [node];
      forall k | 0 <= k < |nodes'|
        ensures nodes'[k].next == if k + 1 < |nodes'| then nodes'[k + 1] else null
      {
        if k + 1 < |nodes| {
          assert nodes[k] != current;
        }
      }
    }
  }

  /** The loop of vios_parse_command */
  method ParseRest(strtok: Strtok, scommand: array<char>, ghost root: CommandArgument?, first: CommandArgument,
                   firstToken: int, budget: nat, ghost tokens: seq<string>)
    returns (ghost nodes: seq<CommandArgument>)
    requires Scanned(strtok, scommand, firstToken, tokens, 1)
    requires root == first && Listed(root, [first], tokens, scommand)
    modifies strtok, scommand, first`next
    ensures |nodes| == (if budget + 1 < |tokens| then budget + 1 else |tokens|)
    ensures Listed(root, nodes, tokens, scommand)
    ensures strtok.Valid() && (strtok.buffer == null <==> |tokens| <= budget + 1)
  {
    hide CStr, Tokens, Terminated, Linked, Holds;
    nodes := [first];
    var current, token, left := first, firstToken, budget;
    while token != -1
      invariant |nodes| + left == budget + 1 && 0 < |nodes|
      invariant current == first || fresh(current)
      invariant current == nodes[|nodes| - 1] && Listed(root, nodes, tokens, scommand)
      invariant Scanned(strtok, scommand, token, tokens, |nodes|)
      decreases |tokens| - |nodes|, if token != -1 then 1 else 0
    {
      var newCommand: CommandArgument?;
      newCommand, left := Append(scommand, root, current, token, left, nodes, tokens);
      if newCommand == null {
        break;
      }
      token := NextToken(strtok, scommand, token, tokens, |nodes|);
      nodes := nodes + [newCommand];
      current := newCommand;
    }
  }

  /** scommand: the command's first 1024 characters */
  method CopyCommand(command: array<char>) returns (scommand: array<char>)
    requires Terminated(command[..], 0)
    ensures fresh(scommand) && Terminated(scommand[..], 0)
    ensures CStr(scommand[..], 0) == Take(CStr(command[..], 0), COMMAND_SIZE - 1)
  {
    scommand := new char[COMMAND_SIZE];
    Strncpy(scommand, command, 0, COMMAND_SIZE);
    ghost var s := scommand[..];
    CStrChars(s, 0);
    CStrSame(s, s[COMMAND_SIZE - 1 := NUL], 0);
    scommand[COMMAND_SIZE - 1] := NUL;
    assert scommand[..] == s[COMMAND_SIZE - 1 := NUL];
  }

  /** vios_parse_command, with `budget` allocations that succeed: the list holds the
      tokens of the command, in order, as far as the allocations go, and strtok's state
      is left cleared exactly when they go all the way. */
  method ParseCommand(strtok: Strtok, command: array<char>, max: int, budget: nat)
    returns (root: CommandArgument?, ghost nodes: seq<CommandArgument>)
    requires strtok.buffer == null && Terminated(command[..], 0)
    modifies strtok
    ensures max >= 1025 ==> root == null && nodes == [] && strtok.buffer == null
    ensures max < 1025 ==>
              var tokens := CommandTokens(old(CStr(command[..], 0)));
              && |nodes| == (if budget < |tokens| then budget else |tokens|)
              && Linked(root, nodes) && Holds(nodes, tokens)
              && strtok.Valid() && (strtok.buffer == null <==> |tokens| <= budget)
  {
    hide CStr, Tokens;
    root, nodes := null, [];
    if max >= COMMAND_SIZE {
      return;
    }
    var scommand := CopyCommand(command);
    ghost var tokens := CommandTokens(CStr(command[..], 0));
    var token := strtok.Next(scommand, " ");
    if token < 0 {
      return;
    }
    assert Scanned(strtok, scommand, token, tokens, 0);
    var left: nat;
    root, left := NewArgument(scommand, token, budget);
    if root == null {
      return;
    }
    assert Listed(root, [root], tokens, scommand);
    token := NextToken(strtok, scommand, token, tokens, 0);
    nodes := ParseRest(strtok, scommand, root, root, token, left, tokens);
  }
}

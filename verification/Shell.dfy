/** The shell's in-place tokenizer: quotes are deleted by shifting the buffer, tokens are ended by
    NULs written over blanks, and arguments are pointers into the buffer. */
module Shell {
  import opened Tokens

  const MAX_COMMAND_LENGTH: nat := 512
  const NUL: char := '\0'

  /** b holds the C string s at position p. */
  ghost predicate StringAt(b: seq<char>, p: int, s: string) {
    && 0 <= p && p + |s| < |b|
    && b[p..p + |s|] == s && b[p + |s|] == NUL
    && NUL !in s
  }

  /** The argument pointers, in order, read back as the tokens; all end before `limit`. */
  ghost predicate Reads(b: seq<char>, args: seq<int>, tokens: seq<string>, limit: int) {
    && |args| == |tokens|
    && forall k :: 0 <= k < |args| ==> StringAt(b, args[k], tokens[k]) && args[k] + |tokens[k]| < limit
  }

  lemma ReadsKept(b: seq<char>, c: seq<char>, args: seq<int>, tokens: seq<string>, limit: int)
    requires Reads(b, args, tokens, limit) && 0 <= limit <= |b| == |c| && b[..limit] == c[..limit]
    ensures Reads(c, args, tokens, limit)
  {
    forall k | 0 <= k < |args| ensures StringAt(c, args[k], tokens[k]) {
      var p, n := args[k], |tokens[k]|;
      assert StringAt(b, p, tokens[k]);
      assert b[..limit][p + n] == c[..limit][p + n];
      SliceOfPrefix(b, limit, p, p + n);
      SliceOfPrefix(c, limit, p, p + n);
    }
  }

  lemma SliceOfPrefix(b: seq<char>, limit: int, p: int, q: int)
    requires 0 <= p <= q <= limit <= |b|
    ensures b[..limit][p..q] == b[p..q]
  {
  }

  lemma StringTail(b: seq<char>, p: int, s: string)
    requires StringAt(b, p, s) && s != ""
    ensures b[p] == s[0] && s[0] != NUL && StringAt(b, p + 1, s[1..])
  {
    assert b[p..p + |s|][0] == b[p];
    assert b[p + 1..p + 1 + |s[1..]|] == b[p..p + |s|][1..];
    assert s[0] in s;
    assert forall c :: c in s[1..] ==> c in s;
  }

  lemma StringKept(b: seq<char>, c: seq<char>, from: int, p: int, s: string)
    requires StringAt(b, p, s) && 0 <= from <= p && |b| == |c| && b[from..] == c[from..]
    ensures StringAt(c, p, s)
  {
    SliceOfSuffix(b, from, p, p + |s|);
    SliceOfSuffix(c, from, p, p + |s|);
    assert b[p + |s|] == b[from..][p + |s| - from];
  }

  lemma SliceOfSuffix(b: seq<char>, from: int, p: int, q: int)
    requires 0 <= from <= p <= q <= |b|
    ensures b[from..][p - from..q - from] == b[p..q]
  {
  }

  method StrLen(b: array<char>, p: nat, ghost s: string) returns (n: nat)
    requires StringAt(b[..], p, s)
    ensures n == |s|
  {
    n := 0;
    NulIsTheEnd(b[..], p, s, p);
    while b[p + n] != NUL
      invariant n <= |s|
      invariant b[p + n] == NUL <==> n == |s|
      decreases |s| - n
    {
      n := n + 1;
      NulIsTheEnd(b[..], p, s, p + n);
    }
  }

  method StrCpy(b: array<char>, s: string)
    requires |s| < b.Length && NUL !in s
    modifies b
    ensures StringAt(b[..], 0, s)
  {
    for i := 0 to |s|
      invariant b[..i] == s[..i]
    {
      b[i] := s[i];
    }
    b[|s|] := NUL;
    assert b[..][0..|s|] == s;
  }

  /** Deletes the character at position i of the string by moving the rest, and its NUL, down. */
  method DeleteAt(b: array<char>, i: nat, ghost s: string)
    requires s != "" && StringAt(b[..], i, s)
    modifies b
    ensures b[..i] == old(b[..i])
    ensures StringAt(b[..], i, s[1..])
  {
    var j := i;
    ghost var end := i + |s|;
    ghost var was := b[..];
    while b[j] != NUL
      invariant i <= j <= end < b.Length
      invariant b[..i] == was[..i] && b[j..] == was[j..]
      invariant forall k :: i <= k < j ==> b[k] == was[k + 1]
      decreases end - j
    {
      assert b[j] == was[j];
      b[j] := b[j + 1];
      j := j + 1;
    }
    NulIsTheEnd(was, i, s, j);
    forall k | 0 <= k < |s| - 1 ensures b[i + k] == s[1..][k] {
      assert was[i..i + |s|][k + 1] == was[i + k + 1];
    }
    assert b[..][i..i + |s[1..]|] == s[1..];
    assert forall c :: c in s[1..] ==> c in s;
  }

  lemma NulIsTheEnd(b: seq<char>, p: int, s: string, j: int)
    requires StringAt(b, p, s) && p <= j <= p + |s|
    ensures b[j] == NUL <==> j == p + |s|
  {
    if j < p + |s| {
      assert b[j] == b[p..p + |s|][j - p] == s[j - p];
      assert s[j - p] in s;
    }
  }

  lemma Nothing(b: seq<char>, args: seq<int>)
    requires args == []
    ensures Reads(b, args, [], 0)
  {
  }

  lemma ReadsLater(b: seq<char>, args: seq<int>, tokens: seq<string>, limit: int, later: int)
    requires Reads(b, args, tokens, limit) && limit <= later
    ensures Reads(b, args, tokens, later)
  {
  }

  /** Writing a NUL at i ends the token begun, and leaves the rest and the finished tokens alone. */
  lemma CloseToken(b: seq<char>, i: nat, args: seq<int>, tokens: seq<string>, token: nat, cur: string, rest: string)
    requires token <= i && i + 1 + |rest| < |b| && StringAt(b, i + 1, rest) && b[token..i] == cur && NUL !in cur
    requires Reads(b, args, tokens, token)
    ensures var c := b[i := NUL];
            StringAt(c, token, cur) && StringAt(c, i + 1, rest) && Reads(c, args, tokens, token)
  {
    var c := b[i := NUL];
    assert c[token..token + |cur|] == b[token..i];
    assert c[i + 1..] == b[i + 1..];
    StringKept(b, c, i + 1, i + 1, rest);
    assert c[..token] == b[..token];
    ReadsKept(b, c, args, tokens, token);
  }

  /** What is still to be parsed: `all` is the finished tokens and what the rest will give. */
  ghost predicate Pending(all: seq<string>, tokens: seq<string>, rest: string, quoted: bool, cur: string) {
    if |tokens| < MAX_ARGS - 1 then all == tokens + Parse(rest, quoted, cur, |tokens|)
    else |tokens| == MAX_ARGS - 1 && cur == "" && all == tokens + Word(rest)
  }

  lemma PendingStep(all: seq<string>, tokens: seq<string>, rest: string, quoted: bool, cur: string)
    requires Pending(all, tokens, rest, quoted, cur) && |tokens| < MAX_ARGS - 1 && rest != ""
    ensures rest[0] == '"' ==> Pending(all, tokens, rest[1..], !quoted, cur)
    ensures rest[0] != '"' && !quoted && Blank(rest[0]) ==>
      var ts := tokens + Word(cur);
      && |ts| <= |all| && |ts| <= MAX_ARGS - 1
      && Pending(all, ts, SkipBlanks(rest[1..]), quoted, "")
    ensures rest[0] != '"' && (quoted || !Blank(rest[0])) ==>
      Pending(all, tokens, rest[1..], quoted, cur + [rest[0]])
  {
    var ts := tokens + Word(cur);
    ParseSkipsBlanks(rest[1..], |ts|);
    if cur == "" { assert ts == tokens; }
  }

  lemma PendingEnd(all: seq<string>, tokens: seq<string>, rest: string, quoted: bool, cur: string)
    requires Pending(all, tokens, rest, quoted, cur) && (rest == "" || |tokens| >= MAX_ARGS - 1)
    ensures all == tokens + Word(if |tokens| < MAX_ARGS - 1 then cur else rest)
    ensures |tokens| >= MAX_ARGS - 1 ==> cur == ""
  {
  }

  /** Ends the token begun at `token`, whose NUL is at i: a pointer to it is kept unless it is empty. */
  method EndToken(buffer: array<char>, args: array<int>, count: nat, token: nat, ghost i: nat,
        ghost cur: string, ghost tokens: seq<string>)
    returns (argc: nat)
    requires buffer as object != args && StringAt(buffer[..], token, cur) && i == token + |cur|
    requires count + |Word(cur)| <= args.Length && count == |tokens|
    requires Reads(buffer[..], args[..count], tokens, token)
    modifies args
    ensures argc == count + |Word(cur)|
    ensures Reads(buffer[..], args[..argc], tokens + Word(cur), i + 1)
  {
    argc := count;
    ghost var was := args[..count];
    var n := StrLen(buffer, token, cur);
    if n > 0 {
      args[argc] := token;
      argc := argc + 1;
      assert args[..argc] == was + [token];
    } else {
      assert tokens + Word(cur) == tokens;
    }
  }

  /** Skips the blanks after position i; what is left starts at the position after the result. */
  method SkipBlanksFrom(buffer: array<char>, i: nat, ghost s: string) returns (j: nat)
    requires StringAt(buffer[..], i + 1, s)
    ensures i <= j && StringAt(buffer[..], j + 1, SkipBlanks(s))
    ensures |SkipBlanks(s)| + j == |s| + i
  {
    hide StringAt;
    j := i;
    ghost var b, r := buffer[..], s;
    BlankAhead(b, i + 1, r);
    while buffer[j + 1] != NUL && Blank(buffer[j + 1])
      invariant i <= j && j + 1 < buffer.Length && StringAt(b, j + 1, r) && |r| + j == |s| + i
      invariant b[j + 1] != NUL && Blank(b[j + 1]) <==> r != "" && Blank(r[0])
      invariant SkipBlanks(r) == SkipBlanks(s)
      decreases |r|
    {
      StringTail(b, j + 1, r);
      j := j + 1;
      r := r[1..];
      BlankAhead(b, j + 1, r);
    }
  }

  lemma BlankAhead(b: seq<char>, p: nat, s: string)
    requires StringAt(b, p, s)
    ensures p < |b| && (b[p] != NUL && Blank(b[p]) <==> s != "" && Blank(s[0]))
  {
    NulIsTheEnd(b, p, s, p);
    if s != "" { StringTail(b, p, s); }
  }

  /** parse_command. The buffer is static in the source: its old contents do not matter. The caller's array
      has room for MAX_ARGS pointers. The null behind them, here -1, is written behind the array if that is
      full, which `overrun` tells. */
  method ParseCommand(buffer: array<char>, input: string, args: array<int>) returns (argc: nat, overrun: bool)
    requires buffer.Length == MAX_COMMAND_LENGTH && buffer as object != args
    requires |input| < MAX_COMMAND_LENGTH && NUL !in input
    requires args.Length >= MAX_ARGS
    modifies buffer, args
    ensures argc == |Parse(input, false, "", 0)| <= args.Length && (argc < args.Length ==> args[argc] == -1)
    ensures overrun <==> argc == args.Length
    ensures args.Length == MAX_ARGS ==>
      (overrun <==> Overflow(input, false, "", 0).Some? && Overflow(input, false, "", 0).value != "")
    ensures Reads(buffer[..], args[..argc], Parse(input, false, "", 0), buffer.Length)
  {
    hide StringAt, Reads, SkipBlanks, Blank, Pending, Parse, Word, Overflow;
    StrCpy(buffer, input);
    ArgsFitIff(input);
    argc := 0;
    var token: nat, i: nat := 0, 0;
    var inQuotes := false;
    // rest is what the loop has not seen, cur the token begun, tokens the finished ones.
    ghost var all := Parse(input, false, "", 0);
    ghost var rest, cur: string, tokens: seq<string> := input, "", [];
    Nothing(buffer[..], args[..0]);
    PendingStart(input);
    while buffer[i] != NUL && argc < MAX_ARGS - 1
      invariant 0 <= token <= i <= i + |rest| < buffer.Length
      invariant StringAt(buffer[..], i, rest)
      invariant buffer[token..i] == cur && NUL !in cur
      invariant argc == |tokens| <= |all| && argc <= MAX_ARGS - 1
      invariant Reads(buffer[..], args[..argc], tokens, token)
      invariant Pending(all, tokens, rest, inQuotes, cur)
      decreases |rest|
    {
      ghost var b := buffer[..];
      NulIsTheEnd(b, i, rest, i);
      StringTail(b, i, rest);
      PendingStep(all, tokens, rest, inQuotes, cur);
      if buffer[i] == '"' {
        inQuotes := !inQuotes;
        DeleteAt(buffer, i, rest);
        AfterDelete(b, buffer[..], token, i, args[..argc], tokens);
        rest := rest[1..];
      } else if !inQuotes && Blank(buffer[i]) {
        buffer[i] := NUL;
        argc, i := EndAtBlank(b, buffer, args, argc, token, i, cur, tokens, rest[1..], |all|);
        tokens, rest, cur := tokens + Word(cur), SkipBlanks(rest[1..]), "";
        token := i;
      } else {
        rest, cur := rest[1..], cur + [rest[0]];
        i := i + 1;
      }
    }
    NulIsTheEnd(buffer[..], i, rest, i);
    argc, overrun := Finish(buffer, args, argc, token, i, inQuotes, rest, cur, tokens, all);
  }

  /** What follows the loop: the last token, and the null behind the pointers. */
  method Finish(buffer: array<char>, args: array<int>, count: nat, token: nat, ghost i: nat, ghost inQuotes: bool,
        ghost rest: string, ghost cur: string, ghost tokens: seq<string>, ghost all: seq<string>)
    returns (argc: nat, overrun: bool)
    requires buffer as object != args && token <= i && i + |rest| < buffer.Length && StringAt(buffer[..], i, rest)
    requires buffer[token..i] == cur && NUL !in cur && count == |tokens| && |all| <= args.Length && count <= args.Length
    requires Reads(buffer[..], args[..count], tokens, token) && Pending(all, tokens, rest, inQuotes, cur)
    requires rest == "" || count >= MAX_ARGS - 1
    modifies args
    ensures argc == |all| && (argc < args.Length ==> args[argc] == -1) && (overrun <==> argc == args.Length)
    ensures Reads(buffer[..], args[..argc], all, buffer.Length)
  {
    hide StringAt, Reads, Pending, Word;
    ghost var last := if count < MAX_ARGS - 1 then cur else rest;
    PendingEnd(all, tokens, rest, inQuotes, cur);
    LastToken(buffer[..], token, i, cur, rest, last);
    argc := EndToken(buffer, args, count, token, token + |last|, last, tokens);
    ReadsLater(buffer[..], args[..argc], all, token + |last| + 1, buffer.Length);
    overrun := argc == args.Length;
    if !overrun {
      ghost var kept := args[..argc];
      args[argc] := -1;
      assert args[..argc] == kept;
    }
  }

  lemma PendingStart(input: string)
    ensures Pending(Parse(input, false, "", 0), [], input, false, "")
  {
  }

  lemma AfterDelete(b: seq<char>, c: seq<char>, token: nat, i: nat, args: seq<int>, tokens: seq<string>)
    requires token <= i <= |b| == |c| && c[..i] == b[..i] && Reads(b, args, tokens, token)
    ensures c[token..i] == b[token..i] && Reads(c, args, tokens, token)
  {
    assert c[token..i] == c[..i][token..] && b[token..i] == b[..i][token..];
    assert c[..token] == c[..i][..token] && b[..token] == b[..i][..token];
    ReadsKept(b, c, args, tokens, token);
  }

  /** The blank branch once its NUL is written: keep the token, skip further blanks. */
  method EndAtBlank(ghost b: seq<char>, buffer: array<char>, args: array<int>, count: nat, token: nat, i: nat,
        ghost cur: string, ghost tokens: seq<string>, ghost rest: string, ghost room: nat)
    returns (argc: nat, j: nat)
    requires buffer as object != args && token <= i && i + 1 + |rest| < buffer.Length == |b|
    requires buffer[..] == b[i := NUL] && StringAt(b, i + 1, rest) && b[token..i] == cur && NUL !in cur
    requires count == |tokens| && |tokens + Word(cur)| <= room <= args.Length
    requires Reads(b, args[..count], tokens, token)
    modifies args
    ensures argc == |tokens + Word(cur)| && Reads(buffer[..], args[..argc], tokens + Word(cur), j)
    ensures i < j && StringAt(buffer[..], j, SkipBlanks(rest)) && j + |SkipBlanks(rest)| == i + 1 + |rest|
  {
    hide StringAt, Reads, SkipBlanks, Blank;
    CloseToken(b, i, args[..count], tokens, token, cur, rest);
    argc := EndToken(buffer, args, count, token, i, cur, tokens);
    j := SkipBlanksFrom(buffer, i, rest);
    ReadsLater(buffer[..], args[..argc], tokens + Word(cur), i + 1, j + 1);
    j := j + 1;
  }

  lemma LastToken(b: seq<char>, token: nat, i: nat, cur: string, rest: string, last: string)
    requires token <= i && StringAt(b, i, rest) && i <= |b| && b[token..i] == cur && NUL !in cur
    requires (rest == "" && last == cur) || (cur == "" && last == rest)
    ensures StringAt(b, token, last)
  {
  }
}

/** What tokenizing a command line means, on strings. */
module Tokens {
  import opened Wrappers

  /** A command may hold MAX_ARGS - 1 tokens and the null that ends them. */
  const MAX_ARGS: nat := 32

  predicate Blank(c: char) {
    c == ' ' || c == '\t'
  }

  function Word(cur: string): seq<string> {
    if cur == "" then [] else [cur]
  }

  /** Drop quotes, split at unquoted blanks, discard empty tokens; cur is the token begun so far. */
  function Split(s: string, quoted: bool, cur: string): seq<string>
    decreases |s|
  {
    if s == "" then Word(cur)
    else if s[0] == '"' then Split(s[1..], !quoted, cur)
    else if !quoted && Blank(s[0]) then Word(cur) + Split(s[1..], false, "")
    else Split(s[1..], quoted, cur + [s[0]])
  }

  function SkipBlanks(s: string): (r: string)
    ensures |r| <= |s|
  {
    if s != "" && Blank(s[0]) then SkipBlanks(s[1..]) else s
  }

  /** The same, but once MAX_ARGS - 1 tokens are complete the rest of the line, from its first
      non-blank on, is taken as it stands. */
  function Parse(s: string, quoted: bool, cur: string, done: nat): seq<string>
    decreases |s|
  {
    if s == "" then Word(cur)
    else if s[0] == '"' then Parse(s[1..], !quoted, cur, done)
    else if !quoted && Blank(s[0]) then
      if cur == "" then Parse(s[1..], false, "", done)
      else if done + 1 >= MAX_ARGS - 1 then [cur] + Word(SkipBlanks(s[1..]))
      else [cur] + Parse(s[1..], false, "", done + 1)
    else Parse(s[1..], quoted, cur + [s[0]], done)
  }

  /** The text left over when the last regular token is complete. */
  function Overflow(s: string, quoted: bool, cur: string, done: nat): Option<string>
    decreases |s|
  {
    if s == "" then None
    else if s[0] == '"' then Overflow(s[1..], !quoted, cur, done)
    else if !quoted && Blank(s[0]) then
      if cur == "" then Overflow(s[1..], false, "", done)
      else if done + 1 >= MAX_ARGS - 1 then Some(SkipBlanks(s[1..]))
      else Overflow(s[1..], false, "", done + 1)
    else Overflow(s[1..], quoted, cur + [s[0]], done)
  }

  predicate Plain(s: string) {
    forall i :: 0 <= i < |s| ==> s[i] != '"' && !Blank(s[i])
  }

  // ---- skipping blanks ----

  lemma {:induction false} ParseSkipsBlanks(s: string, done: nat)
    ensures Parse(s, false, "", done) == Parse(SkipBlanks(s), false, "", done)
  {
    if s != "" && Blank(s[0]) { ParseSkipsBlanks(s[1..], done); }
  }

  lemma {:induction false} SplitSkipsBlanks(s: string)
    ensures Split(s, false, "") == Split(SkipBlanks(s), false, "")
    ensures SkipBlanks(s) == "" || !Blank(SkipBlanks(s)[0])
  {
    if s != "" && Blank(s[0]) { SplitSkipsBlanks(s[1..]); }
  }

  // ---- when a text is its own only token ----

  function Length(ts: seq<string>): nat {
    if ts == [] then 0 else |ts[0]| + Length(ts[1..])
  }

  lemma LengthOfWord(cur: string, ts: seq<string>)
    ensures Length(Word(cur) + ts) == |cur| + Length(ts)
  {
    if cur != "" {
      assert (Word(cur) + ts)[1..] == ts;
    } else {
      assert Word(cur) + ts == ts;
    }
  }

  /** Tokens hold no more characters than the text, and fewer if the text is not plain. */
  lemma {:induction false} SplitLength(s: string, quoted: bool, cur: string)
    ensures Length(Split(s, quoted, cur)) <= |cur| + |s|
    ensures !Plain(s) && !quoted ==> Length(Split(s, quoted, cur)) < |cur| + |s|
    ensures !quoted && Plain(s) ==> Split(s, quoted, cur) == Word(cur + s)
    decreases |s|
  {
    if s != "" { PlainTail(s); }
    if s == "" {
      assert cur + s == cur;
      LengthOfWord(cur, []);
      assert Word(cur) + [] == Word(cur);
    } else if s[0] == '"' {
      SplitLength(s[1..], !quoted, cur);
    } else if !quoted && Blank(s[0]) {
      SplitLength(s[1..], false, "");
      LengthOfWord(cur, Split(s[1..], false, ""));
    } else {
      SplitLength(s[1..], quoted, cur + [s[0]]);
      assert cur + [s[0]] + s[1..] == cur + s;
    }
  }

  lemma PlainTail(s: string)
    requires s != ""
    ensures Plain(s) <==> s[0] != '"' && !Blank(s[0]) && Plain(s[1..])
  {
    assert s == [s[0]] + s[1..];
    assert Plain(s[1..]) ==> forall i :: 1 <= i < |s| ==> s[i] == s[1..][i - 1];
    assert forall i :: 0 <= i < |s| - 1 ==> s[1..][i] == s[i + 1];
  }

  lemma OwnTokenIffPlain(s: string)
    ensures Split(s, false, "") == Word(s) <==> Plain(s)
  {
    SplitLength(s, false, "");
    LengthOfWord(s, []);
    assert Word(s) + [] == Word(s) && "" + s == s;
  }

  // ---- the cap ----

  /** What the cap does to the tokens: ts are read as documented, the rest as it stands. */
  lemma {:induction false} ParseVersusSplit(s: string, quoted: bool, cur: string, done: nat)
    returns (ts: seq<string>)
    requires done < MAX_ARGS - 1
    ensures var o := Overflow(s, quoted, cur, done);
            if o.None? then Parse(s, quoted, cur, done) == Split(s, quoted, cur)
            else && Parse(s, quoted, cur, done) == ts + Word(o.value)
                 && Split(s, quoted, cur) == ts + Split(o.value, false, "")
                 && done + |ts| == MAX_ARGS - 1
    decreases |s|
  {
    ts := [];
    if s == "" {
    } else if s[0] == '"' {
      ts := ParseVersusSplit(s[1..], !quoted, cur, done);
    } else if !quoted && Blank(s[0]) {
      if cur == "" {
        ts := ParseVersusSplit(s[1..], false, "", done);
        assert Word(cur) + Split(s[1..], false, "") == Split(s[1..], false, "");
      } else if done + 1 >= MAX_ARGS - 1 {
        SplitSkipsBlanks(s[1..]);
        ts := [cur];
      } else {
        var us := ParseVersusSplit(s[1..], false, "", done + 1);
        ts := [cur] + us;
        var o := Overflow(s[1..], false, "", done + 1);
        if o.Some? {
          assert ts + Word(o.value) == [cur] + (us + Word(o.value));
          assert ts + Split(o.value, false, "") == [cur] + (us + Split(o.value, false, ""));
        }
      }
    } else {
      ts := ParseVersusSplit(s[1..], quoted, cur + [s[0]], done);
    }
  }

  /** A command line is tokenized as documented exactly when the text left after its 31st complete
      token, if any, has neither quotes nor blanks; at most 30 tokens are always read correctly. */
  lemma ParseIsSplitIff(s: string)
    ensures var o := Overflow(s, false, "", 0);
            Parse(s, false, "", 0) == Split(s, false, "") <==> o.None? || Plain(o.value)
    ensures |Split(s, false, "")| <= MAX_ARGS - 2 ==> Parse(s, false, "", 0) == Split(s, false, "")
  {
    var ts := ParseVersusSplit(s, false, "", 0);
    var o := Overflow(s, false, "", 0);
    if o.Some? {
      OwnTokenIffPlain(o.value);
      assert (ts + Word(o.value))[|ts|..] == Word(o.value);
      assert (ts + Split(o.value, false, ""))[|ts|..] == Split(o.value, false, "");
    }
  }

  /** The token pointers and the null after them fit in MAX_ARGS entries exactly when nothing is left
      over after MAX_ARGS - 1 complete tokens. */
  lemma ArgsFitIff(s: string)
    ensures var o := Overflow(s, false, "", 0);
            && |Parse(s, false, "", 0)| <= MAX_ARGS
            && (|Parse(s, false, "", 0)| < MAX_ARGS <==> o.None? || o.value == "")
  {
    var ts := ParseVersusSplit(s, false, "", 0);
    if Overflow(s, false, "", 0).None? { ShortWithoutOverflow(s, false, "", 0); }
  }

  lemma {:induction false} ShortWithoutOverflow(s: string, quoted: bool, cur: string, done: nat)
    requires Overflow(s, quoted, cur, done).None? && done < MAX_ARGS - 1
    ensures done + |Parse(s, quoted, cur, done)| <= MAX_ARGS - 1
    decreases |s|
  {
    if s == "" {
    } else if s[0] == '"' {
      ShortWithoutOverflow(s[1..], !quoted, cur, done);
    } else if !quoted && Blank(s[0]) {
      ShortWithoutOverflow(s[1..], false, "", if cur == "" then done else done + 1);
    } else {
      ShortWithoutOverflow(s[1..], quoted, cur + [s[0]], done);
    }
  }

  // ---- lines made of given tokens ----

  /** A token as it is typed: bare or in quotes, with a gap behind it. */
  datatype Typed = Typed(token: string, quoted: bool, gap: string)

  /** Spaces and tabs. */
  ghost predicate IsGap(s: string) {
    forall i :: 0 <= i < |s| ==> s[i] == ' ' || s[i] == '\t'
  }

  ghost predicate TypedWell(t: Typed) {
    && t.token != "" && '"' !in t.token && t.gap != "" && IsGap(t.gap)
    && (!t.quoted ==> ' ' !in t.token && '\t' !in t.token)
  }

  function Line(ts: seq<Typed>): string {
    if ts == [] then "" else
      (if ts[0].quoted then "\"" + ts[0].token + "\"" else ts[0].token) + ts[0].gap + Line(ts[1..])
  }

  function TokensOf(ts: seq<Typed>): seq<string> {
    if ts == [] then [] else [ts[0].token] + TokensOf(ts[1..])
  }

  /** Text without quotes, and without blanks unless quoted, belongs to the token that is begun. */
  lemma {:induction false} TextIsTaken(t: string, rest: string, quoted: bool, cur: string)
    requires '"' !in t && (!quoted ==> ' ' !in t && '\t' !in t)
    ensures Split(t + rest, quoted, cur) == Split(rest, quoted, cur + t)
    decreases |t|
  {
    if t == "" {
      assert t + rest == rest && cur + t == cur;
    } else {
      assert (t + rest)[0] == t[0] && (t + rest)[1..] == t[1..] + rest;
      assert t[0] in t && forall c :: c in t[1..] ==> c in t;
      TextIsTaken(t[1..], rest, quoted, cur + [t[0]]);
      assert cur + [t[0]] + t[1..] == cur + t;
    }
  }

  lemma {:induction false} GapEndsToken(gap: string, rest: string, cur: string)
    requires IsGap(gap) && (gap != "" || cur == "")
    ensures Split(gap + rest, false, cur) == Word(cur) + Split(rest, false, "")
    decreases |gap|
  {
    if gap == "" {
      assert gap + rest == rest;
    } else {
      assert (gap + rest)[0] == gap[0] && (gap + rest)[1..] == gap[1..] + rest;
      assert forall i :: 0 <= i < |gap| - 1 ==> gap[1..][i] == gap[i + 1];
      GapEndsToken(gap[1..], rest, "");
      assert Word("") + Split(rest, false, "") == Split(rest, false, "");
    }
  }

  lemma {:induction false} LineIsSplit(ts: seq<Typed>)
    requires forall i :: 0 <= i < |ts| ==> TypedWell(ts[i])
    ensures Split(Line(ts), false, "") == TokensOf(ts)
    decreases |ts|
  {
    hide TypedWell;
    if ts != [] {
      LineIsSplit(ts[1..]);
      FirstIsSplit(ts[0], Line(ts[1..]));
    }
  }

  lemma FirstIsSplit(t: Typed, rest: string)
    requires TypedWell(t)
    ensures Split((if t.quoted then "\"" + t.token + "\"" else t.token) + t.gap + rest, false, "")
      == [t.token] + Split(rest, false, "")
  {
    hide Split, IsGap;
    var behind := t.gap + rest;
    GapEndsToken(t.gap, rest, t.token);
    assert "" + t.token == t.token && Word(t.token) == [t.token];
    if t.quoted {
      assert "\"" + t.token + "\"" + t.gap + rest == "\"" + (t.token + ("\"" + behind));
      QuoteToggles(t.token + ("\"" + behind), false, "");
      TextIsTaken(t.token, "\"" + behind, true, "");
      QuoteToggles(behind, true, t.token);
    } else {
      assert t.token + t.gap + rest == t.token + behind;
      TextIsTaken(t.token, behind, false, "");
    }
  }

  lemma QuoteToggles(s: string, quoted: bool, cur: string)
    ensures Split("\"" + s, quoted, cur) == Split(s, !quoted, cur)
  {
    assert ("\"" + s)[0] == '"' && ("\"" + s)[1..] == s;
  }

  /** Tokens typed bare or in quotes, with spaces and tabs in front and between, are read back, if there are at
      most 30. */
  lemma TypedTokensAreRead(front: string, ts: seq<Typed>)
    requires IsGap(front) && |ts| <= 30 && forall i :: 0 <= i < |ts| ==> TypedWell(ts[i])
    ensures Parse(front + Line(ts), false, "", 0) == TokensOf(ts)
  {
    hide TypedWell;
    LineIsSplit(ts);
    GapEndsToken(front, Line(ts), "");
    assert Word("") + TokensOf(ts) == TokensOf(ts);
    ParseIsSplitIff(front + Line(ts));
    TokenCount(ts);
  }

  lemma {:induction false} TokenCount(ts: seq<Typed>)
    ensures |TokensOf(ts)| == |ts|
  {
    if ts != [] { TokenCount(ts[1..]); }
  }

  // ---- a line that is too long ----

  /** n tokens, each with a blank behind it. */
  function Repeated(n: nat): string {
    if n == 0 then "" else "a " + Repeated(n - 1)
  }

  lemma {:induction false} OverflowAfter(n: nat, rest: string)
    requires 0 < n < MAX_ARGS
    ensures Overflow(Repeated(n) + rest, false, "", MAX_ARGS - 1 - n) == Some(SkipBlanks(rest))
  {
    var s := Repeated(n) + rest;
    assert s[0] == 'a' && s[1] == ' ' && s[1..][1..] == Repeated(n - 1) + rest;
    if n == 1 {
      assert Repeated(0) + rest == rest;
    } else {
      OverflowAfter(n - 1, rest);
    }
  }

  /** With "b c" behind 31 complete tokens, the line has 33 tokens, but is read as 32. */
  lemma ThirtyThreeTokens()
    ensures var s := Repeated(MAX_ARGS - 1) + "b c";
      Parse(s, false, "", 0) != Split(s, false, "") && |Parse(s, false, "", 0)| == MAX_ARGS
  {
    OverflowAfter(MAX_ARGS - 1, "b c");
    assert "b c"[1] == ' ';
    ParseIsSplitIff(Repeated(MAX_ARGS - 1) + "b c");
    ArgsFitIff(Repeated(MAX_ARGS - 1) + "b c");
  }
}

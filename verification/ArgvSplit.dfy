/**
  The command splitter of popen_noshell.c. The arguments it returns are pointers into one
  buffer that is filled from the front while the command is scanned; memory allocation is
  taken to succeed.
*/
module ArgvSplit {

  import opened Quoting

  const META := "!\\$`\n|&;()<>"

  predicate IsMeta(c: char) {
    c in META
  }

  predicate IsBlank(c: char) {
    c == ' ' || c == '\t'
  }

  datatype Result = Fail | Tokens(tokens: seq<string>)

  // ----- the split of a command, without a buffer -----

  /** Whether a character is part of an argument: neither a separating blank nor a quotation mark in force */
  predicate Counts(quote: Quote, c: char) {
    !(IsBlank(c) && quote.NoQuote?) && Next(quote, c) == quote
  }

  /** A finished argument, unless it is empty */
  function Finished(current: string): seq<string> {
    if current == "" then [] else [current]
  }

  function Prepend(tokens: seq<string>, r: Result): Result {
    if r.Fail? then Fail else Tokens(tokens + r.tokens)
  }

  function Lex(s: string, quote: Quote, current: string): Result {
    if s == "" then (if quote.NoQuote? then Tokens(Finished(current)) else Fail)
    else if IsMeta(s[0]) then Fail
    else if IsBlank(s[0]) && quote.NoQuote? then Prepend(Finished(current), Lex(s[1..], quote, ""))
    else Lex(s[1..], Next(quote, s[0]), if Counts(quote, s[0]) then current + [s[0]] else current)
  }

  function Split(s: string): Result {
    var r := Lex(s, NoQuote, "");
    if r == Tokens([]) then Fail else r
  }

  // ----- the splitter -----

  /** The C string at an offset */
  function CString(buffer: seq<char>, at: int): string
    requires 0 <= at <= |buffer|
    decreases |buffer| - at
  {
    if at == |buffer| || buffer[at] == '\0' then "" else [buffer[at]] + CString(buffer, at + 1)
  }

  /** token stands at offset at, ended by a NUL that lies before the offset limit */
  predicate StandsAt(buffer: seq<char>, at: int, token: string, limit: int) {
    && 0 <= at && at + |token| < limit <= |buffer|
    && buffer[at..at + |token|] == token
    && buffer[at + |token|] == '\0'
  }

  predicate NulFree(s: string) {
    '\0' !in s
  }

  lemma {:induction false} StandingString(buffer: seq<char>, at: int, token: string, limit: int)
    requires StandsAt(buffer, at, token, limit) && NulFree(token)
    ensures CString(buffer, at) == token
    decreases |token|
  {
    if token != "" {
      assert buffer[at] == token[0];
      assert buffer[at + 1..at + 1 + |token[1..]|] == token[1..];
      StandingString(buffer, at + 1, token[1..], limit);
      assert token == [token[0]] + token[1..];
    }
  }

  const NULL := -1

  /** The offsets argv point at tokens, one behind the other, all before limit */
  ghost predicate Stand(buffer: seq<char>, argv: seq<int>, tokens: seq<string>, limit: int) {
    && |argv| == |tokens|
    && (forall k :: 0 <= k < |argv| ==> StandsAt(buffer, argv[k], tokens[k], limit) && NulFree(tokens[k]))
    && (forall k :: 0 < k < |argv| ==> argv[k - 1] + |tokens[k - 1]| < argv[k])
  }

  lemma WritingBehind(buffer: seq<char>, argv: seq<int>, tokens: seq<string>, limit: int, buffer': seq<char>)
    requires Stand(buffer, argv, tokens, limit) && |buffer'| == |buffer| && 0 <= limit <= |buffer|
    requires buffer'[..limit] == buffer[..limit]
    ensures Stand(buffer', argv, tokens, limit)
  {
    forall k | 0 <= k < |argv|
      ensures StandsAt(buffer', argv[k], tokens[k], limit)
    {
      var at, n := argv[k], |tokens[k]|;
      assert forall j :: 0 <= j < limit ==> buffer'[j] == buffer'[..limit][j] == buffer[j];
      assert buffer'[at..at + n] == buffer[at..at + n];
    }
  }

  /** What the flags in_sq and in_dq amount to */
  function QuoteOf(inSq: bool, inDq: bool): Quote {
    if inSq then Single else if inDq then Double else NoQuote
  }

  /** Where the current argument begins in the buffer */
  function Begun(start: int, j: int): int {
    if start == NULL then j else start
  }

  /** _popen_noshell_add_token: end the current argument in the buffer and note where it began */
  method AddToken(argv: seq<int>, start: int, command: array<char>, j: nat, ghost tokens: seq<string>,
      ghost current: string)
    returns (argv': seq<int>, j': nat)
    requires j < command.Length && start <= j
    requires if start == NULL then current == "" else 0 <= start && command[start..j] == current
    requires NulFree(current)
    requires Stand(command[..], argv, tokens, Begun(start, j))
    modifies command
    ensures Stand(command[..], argv', tokens + Finished(current), j')
    ensures j' == if current == "" then j else j + 1
    ensures forall k :: 0 <= k < command.Length && k != j ==> command[k] == old(command[k])
  {
    ghost var limit := Begun(start, j);
    argv', j' := argv, j;
    ghost var before := command[..];
    if start != NULL && j - 1 - start >= 0 {
      command[j] := '\0';
      j' := j + 1;
      argv' := argv + [start];
      assert command[..][..limit] == before[..limit];
      WritingBehind(before, argv, tokens, limit, command[..]);
      assert command[..][start..start + |current|] == current;
      StandOneMore(command[..], argv, tokens, limit, start, current, j');
    } else {
      assert current == "" && tokens + [] == tokens;
      StandLater(command[..], argv, tokens, limit, j);
    }
  }

  lemma StandLater(buffer: seq<char>, argv: seq<int>, tokens: seq<string>, limit: int, later: int)
    requires Stand(buffer, argv, tokens, limit) && limit <= later <= |buffer|
    ensures Stand(buffer, argv, tokens, later)
  {
  }

  lemma StandOneMore(buffer: seq<char>, argv: seq<int>, tokens: seq<string>, limit: int, start: int, token: string,
      later: int)
    requires Stand(buffer, argv, tokens, limit) && limit <= start
    requires StandsAt(buffer, start, token, later) && NulFree(token)
    ensures Stand(buffer, argv + [start], tokens + [token], later)
  {
    StandLater(buffer, argv, tokens, limit, later);
  }

  lemma StandingStrings(buffer: seq<char>, argv: seq<int>, tokens: seq<string>, limit: int)
    requires Stand(buffer, argv, tokens, limit) && limit <= |buffer|
    ensures Stand(buffer, argv, tokens, |buffer|)
    ensures forall k :: 0 <= k < |argv| ==> 0 <= argv[k] <= |buffer| && CString(buffer, argv[k]) == tokens[k]
  {
    forall k | 0 <= k < |argv|
      ensures 0 <= argv[k] <= |buffer| && CString(buffer, argv[k]) == tokens[k]
    {
      StandingString(buffer, argv[k], tokens[k], limit);
    }
  }

  /** One more character of the current argument */
  method StoreChar(ghost argv: seq<int>, ghost start: nat, command: array<char>, j: nat, ghost tokens: seq<string>,
                   ghost current: string, c: char)
    requires start <= j < command.Length && command[start..j] == current
    requires Stand(command[..], argv, tokens, start)
    modifies command
    ensures Stand(command[..], argv, tokens, start) && command[start..j + 1] == current + [c]
  {
    ghost var before := command[..];
    command[j] := c;
    assert command[..][..start] == before[..start];
    WritingBehind(before, argv, tokens, start, command[..]);
    assert command[start..j + 1] == before[start..j] + [c];
  }

  /**
    popen_noshell_split_command_to_argv: the buffer, the offsets in it where the arguments
    begin, and NULL at the end of these. The buffer has one place more than the command has
    characters.
  */
  method SplitCommand(original: string) returns (ok: bool, command: array<char>, argv: seq<int>)
    requires NulFree(original)
    ensures ok == Split(original).Tokens? && fresh(command) && command.Length == |original| + 1
    ensures ok ==> var tokens := Split(original).tokens;
                   && |argv| == |tokens| + 1 && argv[|tokens|] == NULL
                   && Stand(command[..], argv[..|tokens|], tokens, command.Length)
                   && forall k :: 0 <= k < |tokens| ==>
                       0 <= argv[k] <= command.Length && CString(command[..], argv[k]) == tokens[k]
    ensures !ok ==> argv == []
  {
    var len := |original|;
    command := new char[len + 1](_ => '\0');
    argv, ok := [], false;
    var start, j: nat, inSq, inDq := NULL, 0, false, false;
    ghost var tokens: seq<string>, current := [], "";
    var i := 0;
    while i < len
      invariant 0 <= j <= i <= len && -1 <= start <= j
      invariant !(inSq && inDq) && NulFree(current)
      invariant if start == NULL then current == "" else command[start..j] == current
      invariant Stand(command[..], argv, tokens, Begun(start, j))
      invariant Scanned(original, i, QuoteOf(inSq, inDq), tokens, current)
    {
      LexStep(original, i, QuoteOf(inSq, inDq), tokens, current);
      assert original[i] in original;
      if start == NULL { start := j; }
      var c := original[i];
      if IsMeta(c) {
        argv := [];
        return;
      }
      if IsBlank(c) && !(inSq || inDq) {
        argv, j := AddToken(argv, start, command, j, tokens, current);
        start := NULL;
        tokens, current := tokens + Finished(current), "";
      } else if c == '\'' && !inDq {
        inSq := !inSq;
      } else if c == '"' && !inSq {
        inDq := !inDq;
      } else {
        StoreChar(argv, start, command, j, tokens, current, c);
        j := j + 1;
        current := current + [c];
      }
      i := i + 1;
    }
    LexEnd(original, QuoteOf(inSq, inDq), tokens, current);
    if inSq || inDq {
      argv := [];
      return;
    }
    argv, j := AddToken(argv, start, command, j, tokens, current);
    tokens := tokens + Finished(current);
    if |argv| == 0 {
      return;
    }
    ok := true;
    StandingStrings(command[..], argv, tokens, j);
    assert (argv + [NULL])[..|argv|] == argv;
    argv := argv + [NULL];
  }

  /** The command up to position i has given tokens and the beginning of another one */
  ghost predicate Scanned(original: string, i: nat, quote: Quote, tokens: seq<string>, current: string) {
    i <= |original| && Lex(original, NoQuote, "") == Prepend(tokens, Lex(original[i..], quote, current))
  }

  lemma LexStep(original: string, i: nat, quote: Quote, tokens: seq<string>, current: string)
    requires Scanned(original, i, quote, tokens, current) && i < |original|
    ensures var c := original[i];
            if IsMeta(c) then Split(original).Fail?
            else if IsBlank(c) && quote.NoQuote? then Scanned(original, i + 1, NoQuote, tokens + Finished(current), "")
            else Scanned(original, i + 1, Next(quote, c), tokens, if Counts(quote, c) then current + [c] else current)
  {
    var rest := original[i..];
    assert rest[0] == original[i] && rest[1..] == original[i + 1..];
    PrependTwice(tokens, Finished(current), Lex(rest[1..], NoQuote, ""));
  }

  lemma LexEnd(original: string, quote: Quote, tokens: seq<string>, current: string)
    requires Scanned(original, |original|, quote, tokens, current)
    ensures var all := tokens + Finished(current);
            Split(original) == if quote.NoQuote? && all != [] then Tokens(all) else Fail
  {
    assert original[|original|..] == "";
  }

  lemma PrependTwice(a: seq<string>, b: seq<string>, r: Result)
    ensures Prepend(a, Prepend(b, r)) == Prepend(a + b, r)
  {
    if r.Tokens? {
      assert a + (b + r.tokens) == a + b + r.tokens;
    }
  }

  // ----- what the split means -----

  predicate HasMeta(s: string) {
    exists k :: 0 <= k < |s| && IsMeta(s[k])
  }

  /** The quoting state at the end of s */
  function FinalQuote(s: string, quote: Quote): Quote {
    if s == "" then quote else FinalQuote(s[1..], Next(quote, s[0]))
  }

  /** The characters of s that are part of arguments */
  function Counted(s: string, quote: Quote): string {
    if s == "" then ""
    else (if Counts(quote, s[0]) then [s[0]] else []) + Counted(s[1..], Next(quote, s[0]))
  }

  function Concat(tokens: seq<string>): string {
    if tokens == [] then "" else tokens[0] + Concat(tokens[1..])
  }

  lemma {:induction false} ConcatOfConcat(a: seq<string>, b: seq<string>)
    ensures Concat(a + b) == Concat(a) + Concat(b)
  {
    if a == [] {
      assert a + b == b;
    } else {
      assert (a + b)[1..] == a[1..] + b;
      ConcatOfConcat(a[1..], b);
    }
  }

  lemma ConcatFinished(current: string)
    ensures Concat(Finished(current)) == current
  {
    if current != "" {
      assert [current][1..] == [];
    }
  }

  predicate IsArgument(token: string) {
    token != "" && !HasMeta(token)
  }

  lemma HasMetaHead(s: string)
    requires s != ""
    ensures HasMeta(s) <==> IsMeta(s[0]) || HasMeta(s[1..])
  {
    if HasMeta(s[1..]) {
      var k :| 0 <= k < |s[1..]| && IsMeta(s[1..][k]);
      assert IsMeta(s[k + 1]);
    }
    if HasMeta(s) && !IsMeta(s[0]) {
      var k :| 0 <= k < |s| && IsMeta(s[k]);
      assert IsMeta(s[1..][k - 1]);
    }
  }

  lemma {:induction false} LexFails(s: string, quote: Quote, current: string)
    ensures Lex(s, quote, current).Fail? <==> HasMeta(s) || !FinalQuote(s, quote).NoQuote?
    decreases |s|
  {
    if s != "" {
      HasMetaHead(s);
      if IsBlank(s[0]) && quote.NoQuote? {
        LexFails(s[1..], NoQuote, "");
      } else {
        LexFails(s[1..], Next(quote, s[0]), if Counts(quote, s[0]) then current + [s[0]] else current);
      }
    }
  }

  /** Arguments that make up text */
  predicate AreArguments(tokens: seq<string>, text: string) {
    Concat(tokens) == text && forall k :: 0 <= k < |tokens| ==> IsArgument(tokens[k])
  }

  lemma FinishedInFront(current: string, later: seq<string>, text: string)
    requires !HasMeta(current) && AreArguments(later, text)
    ensures AreArguments(Finished(current) + later, current + text)
  {
    ConcatFinished(current);
    ConcatOfConcat(Finished(current), later);
  }

  lemma {:induction false} LexTokens(s: string, quote: Quote, current: string)
    requires !HasMeta(current) && Lex(s, quote, current).Tokens?
    ensures AreArguments(Lex(s, quote, current).tokens, current + Counted(s, quote))
    decreases |s|
  {
    if s == "" {
      FinishedInFront(current, [], "");
      assert Finished(current) + [] == Finished(current);
    } else {
      var c, rest := s[0], s[1..];
      if IsBlank(c) && quote.NoQuote? {
        LexTokens(rest, NoQuote, "");
        assert "" + Counted(rest, NoQuote) == Counted(s, quote);
        FinishedInFront(current, Lex(rest, NoQuote, "").tokens, Counted(s, quote));
      } else {
        var current' := if Counts(quote, c) then current + [c] else current;
        NoMetaAppended(current, c);
        LexTokens(rest, Next(quote, c), current');
        assert current' + Counted(rest, Next(quote, c)) == current + Counted(s, quote);
      }
    }
  }

  lemma NonEmptyConcat(tokens: seq<string>)
    requires forall k :: 0 <= k < |tokens| ==> IsArgument(tokens[k])
    ensures Concat(tokens) == "" <==> tokens == []
  {
  }

  lemma NoMetaAppended(current: string, c: char)
    requires !HasMeta(current) && !IsMeta(c)
    ensures !HasMeta(current + [c])
  {
    var longer := current + [c];
    forall k | 0 <= k < |longer|
      ensures !IsMeta(longer[k])
    {
      if k < |current| {
        assert longer[k] == current[k];
      }
    }
  }

  /**
    The splitter fails exactly on a metacharacter, an unbalanced quote, or a command without
    arguments. Otherwise the arguments are non-empty, free of metacharacters, and put together
    they are the command without its separating blanks and its quotation marks.
  */
  lemma SplitMeaning(s: string)
    ensures Split(s).Fail? <==> HasMeta(s) || !FinalQuote(s, NoQuote).NoQuote? || Counted(s, NoQuote) == ""
    ensures Split(s).Tokens? ==> var tokens := Split(s).tokens;
              && tokens != [] && Concat(tokens) == Counted(s, NoQuote)
              && forall k :: 0 <= k < |tokens| ==> IsArgument(tokens[k])
  {
    LexFails(s, NoQuote, "");
    if Lex(s, NoQuote, "").Tokens? {
      LexTokens(s, NoQuote, "");
      NonEmptyConcat(Lex(s, NoQuote, "").tokens);
    }
    assert "" + Counted(s, NoQuote) == Counted(s, NoQuote);
  }

  // ----- plain and quoted arguments -----

  /** Characters that stand for themselves in this quoting state */
  predicate AllStand(s: string, quote: Quote) {
    forall k :: 0 <= k < |s| ==> !IsMeta(s[k]) && Counts(quote, s[k])
  }

  lemma {:induction false} LexThrough(s: string, rest: string, quote: Quote, current: string)
    requires AllStand(s, quote)
    ensures Lex(s + rest, quote, current) == Lex(rest, quote, current + s)
    decreases |s|
  {
    if s == "" {
      assert s + rest == rest && current + s == current;
    } else {
      assert (s + rest)[0] == s[0] && (s + rest)[1..] == s[1..] + rest;
      LexThrough(s[1..], rest, quote, current + [s[0]]);
      assert current + [s[0]] + s[1..] == current + s;
    }
  }

  /** A word without metacharacters, blanks and quotation marks */
  predicate IsWord(s: string) {
    s != "" && forall k :: 0 <= k < |s| ==> s[k] !in "!\\$`\n|&;()<> \t'\""
  }

  lemma WordStands(s: string)
    requires IsWord(s)
    ensures AllStand(s, NoQuote)
  {
    forall k | 0 <= k < |s| ensures !IsMeta(s[k]) && Counts(NoQuote, s[k]) {
      assert !IsMeta(s[k]) by {
        assert "!\\$`\n|&;()<> \t'\"" == META + " \t'\"";
      }
      assert s[k] != ' ' && s[k] != '\t' && s[k] != '\'' && s[k] != '"' by {
        assert ' ' in "!\\$`\n|&;()<> \t'\"" && '\t' in "!\\$`\n|&;()<> \t'\"";
        assert '\'' in "!\\$`\n|&;()<> \t'\"" && '"' in "!\\$`\n|&;()<> \t'\"";
      }
    }
  }

  /** One of these characters anywhere, even in quotation marks, and the command is refused */
  lemma MetaIsRefused(s: string, k: nat)
    requires k < |s| && s[k] in "!\\$`\n|&;()<>"
    ensures Split(s).Fail?
  {
    assert IsMeta(s[k]);
    SplitMeaning(s);
  }

  /** Two words with a space or a tab between them are two arguments */
  lemma TwoWords(a: string, b: string, blank: char)
    requires IsWord(a) && IsWord(b) && (blank == ' ' || blank == '\t')
    ensures Split(a + [blank] + b) == Tokens([a, b])
  {
    WordStands(a);
    LexThrough(a, [blank] + b, NoQuote, "");
    assert a + [blank] + b == a + ([blank] + b) && "" + a == a;
    BlankThenWord(a, b, blank);
    assert [a] + [b] == [a, b];
  }

  lemma BlankThenWord(a: string, b: string, blank: char)
    requires a != "" && IsWord(b) && (blank == ' ' || blank == '\t')
    ensures Lex([blank] + b, NoQuote, a) == Tokens([a] + [b])
  {
    WordStands(b);
    LexThrough(b, "", NoQuote, "");
    assert b + "" == b && "" + b == b;
    assert ([blank] + b)[0] == blank && ([blank] + b)[1..] == b && !IsMeta(blank);
  }

  /** In quotation marks of one kind, blanks and marks of the other kind belong to the argument */
  lemma QuotedIsOne(s: string, mark: char)
    requires s != "" && !HasMeta(s) && mark !in s && (mark == '\'' || mark == '"')
    ensures Split([mark] + s + [mark]) == Tokens([s])
  {
    var inside := if mark == '\'' then Single else Double;
    assert AllStand(s, inside);
    assert !IsMeta(mark);
    assert [mark] + s + [mark] == [mark] + (s + [mark]) && ([mark] + (s + [mark]))[1..] == s + [mark];
    LexThrough(s, [mark], inside, "");
    assert "" + s == s && [mark][1..] == "";
    assert Lex([mark], inside, s) == Lex("", NoQuote, s);
  }

  // ----- every list of arguments can be written down -----

  /** A character in quotation marks of the other kind */
  function QuotedChar(c: char): string {
    if c == '\'' then "\"'\"" else ['\'', c, '\'']
  }

  function Quoted(token: string): string {
    if token == "" then "" else QuotedChar(token[0]) + Quoted(token[1..])
  }

  function Written(tokens: seq<string>): string {
    if tokens == [] then "" else Quoted(tokens[0]) + " " + Written(tokens[1..])
  }

  lemma LexQuotedChar(c: char, rest: string, current: string)
    requires !IsMeta(c)
    ensures Lex(QuotedChar(c) + rest, NoQuote, current) == Lex(rest, NoQuote, current + [c])
  {
    var q := QuotedChar(c);
    var s := q + rest;
    var mark := q[0];
    var inside := if mark == '\'' then Single else Double;
    assert !IsMeta('\'') && !IsMeta('"');
    assert s[1..][1..][1..] == rest;
    assert s[0] == mark && s[1..][0] == c && s[1..][1..][0] == mark;
    assert Lex(s, NoQuote, current) == Lex(s[1..], inside, current);
    assert Lex(s[1..], inside, current) == Lex(s[1..][1..], inside, current + [c]);
    assert Lex(s[1..][1..], inside, current + [c]) == Lex(rest, NoQuote, current + [c]);
  }

  lemma {:induction false} LexQuoted(token: string, rest: string, current: string)
    requires !HasMeta(token)
    ensures Lex(Quoted(token) + rest, NoQuote, current) == Lex(rest, NoQuote, current + token)
    decreases |token|
  {
    if token == "" {
      assert Quoted(token) + rest == rest && current + token == current;
    } else {
      HasMetaHead(token);
      assert Quoted(token) + rest == QuotedChar(token[0]) + (Quoted(token[1..]) + rest);
      LexQuotedChar(token[0], Quoted(token[1..]) + rest, current);
      LexQuoted(token[1..], rest, current + [token[0]]);
      assert current + [token[0]] + token[1..] == current + token;
    }
  }

  lemma {:induction false} LexWritten(tokens: seq<string>)
    requires forall k :: 0 <= k < |tokens| ==> IsArgument(tokens[k])
    ensures Lex(Written(tokens), NoQuote, "") == Tokens(tokens)
    decreases |tokens|
  {
    if tokens != [] {
      var token, rest := tokens[0], Written(tokens[1..]);
      assert Written(tokens) == Quoted(token) + (" " + rest);
      LexQuoted(token, " " + rest, "");
      assert "" + token == token;
      assert (" " + rest)[0] == ' ' && (" " + rest)[1..] == rest;
      assert !IsMeta(' ');
      LexWritten(tokens[1..]);
      assert [token] + tokens[1..] == tokens;
    }
  }

  /**
    The lists of arguments the splitter can return are the non-empty ones of non-empty arguments
    without metacharacters
  */
  lemma SplittableExactly(tokens: seq<string>)
    ensures (exists s :: Split(s) == Tokens(tokens))
            <==> tokens != [] && forall k :: 0 <= k < |tokens| ==> IsArgument(tokens[k])
  {
    if s :| Split(s) == Tokens(tokens) {
      SplitMeaning(s);
    }
    if tokens != [] && forall k :: 0 <= k < |tokens| ==> IsArgument(tokens[k]) {
      LexWritten(tokens);
      assert Split(Written(tokens)) == Tokens(tokens);
    }
  }
}

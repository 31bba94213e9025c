/**
  The tokenizer of command.c. A string is split at white space outside quotation marks; a
  token is a name and a value, or a value alone, and keeps its text. Characters are those of
  the C locale; a string does not contain NUL.
*/
module CommandParse {

  import opened Quoting
  import opened Wrappers

  datatype Token = Token(name: Option<string>, value: string, text: string)

  /** isalnum or ispunct */
  predicate IsGraph(c: char) {
    '!' <= c <= '~'
  }

  predicate IsSpace(c: char) {
    c == ' ' || 9 as char <= c <= 13 as char
  }

  predicate IsMark(c: char) {
    c == '"' || c == '\''
  }

  // ----- the tokens of a string -----

  /** Where a token ends: at white space outside quotation marks, or at the end of the string if no mark is open */
  function TokenEnd(s: string, i: nat, quote: Quote): (end: Option<nat>)
    requires i <= |s|
    ensures end.Some? ==> i <= end.value <= |s| && (end.value < |s| ==> IsSpace(s[end.value]))
    decreases |s| - i
  {
    if i == |s| then (if quote.NoQuote? then Some(i) else None)
    else if quote.NoQuote? && IsSpace(s[i]) then Some(i)
    else TokenEnd(s, i + 1, Next(quote, s[i]))
  }

  /** The texts of the tokens from position i on; one whose quotation mark is never closed is no token */
  function Texts(s: string, i: nat): seq<string>
    requires i <= |s|
    decreases |s| - i, 1
  {
    if i == |s| then []
    else if !IsGraph(s[i]) then Texts(s, i + 1)
    else TextsFrom(s, i, TokenEnd(s, i, NoQuote))
  }

  /** The text of a token with these bounds, if it has an end, and the texts behind it */
  function TextsFrom(s: string, start: nat, end: Option<nat>): seq<string>
    requires start < |s| && (end.Some? ==> start <= end.value <= |s|)
    decreases |s| - start, 0
  {
    if end.None? then []
    else [s[start..end.value]] + if end.value < |s| then Texts(s, end.value + 1) else []
  }

  /** Position of the first '=', the length if there is none */
  function Equals(text: string): (k: nat)
    ensures k <= |text| && (k < |text| ==> text[k] == '=') && forall j :: 0 <= j < k ==> text[j] != '='
  {
    if text == "" || text[0] == '=' then 0 else 1 + Equals(text[1..])
  }

  /** A mark in front is taken off, and then a mark at the end */
  function Unquoted(value: string): string {
    if value == "" || !IsMark(value[0]) then value
    else if |value| > 1 && IsMark(value[|value| - 1]) then value[1..|value| - 1]
    else value[1..]
  }

  function TokenOf(text: string): Token {
    var k := Equals(text);
    if k < |text| then Token(Some(text[..k]), Unquoted(text[k + 1..]), text)
    else Token(None, Unquoted(text), text)
  }

  function TokensOf(texts: seq<string>): (tokens: seq<Token>)
    ensures |tokens| == |texts| && forall k :: 0 <= k < |texts| ==> tokens[k] == TokenOf(texts[k])
  {
    if texts == [] then [] else [TokenOf(texts[0])] + TokensOf(texts[1..])
  }

  /** A first token without a name is the name of the command, and no argument gets it */
  function First(tokens: seq<Token>): (first: nat)
    ensures first <= |tokens|
  {
    if tokens != [] && tokens[0].name.None? then 1 else 0
  }

  // ----- the parser -----

  datatype State = Initial | White | InToken | InQuote | InDoubleQuote | Final

  class Command {
    const original: string
    var tokens: seq<Token>
    var first: nat

    /** command_push_arg, with the cut at '=' that its caller makes */
    method PushArg(text: string)
      modifies `tokens
      ensures tokens == old(tokens) + [TokenOf(text)]
    {
      var k := Equals(text);
      var value := if k < |text| then text[k + 1..] else text;
      if |value| > 0 && IsMark(value[0]) {
        value := value[1..];
        if |value| > 0 && IsMark(value[|value| - 1]) {
          assert value[..|value| - 1] == (if k < |text| then text[k + 1..] else text)[1..|value|];
          value := value[..|value| - 1];
        }
      }
      tokens := tokens + [Token(if k < |text| then Some(text[..k]) else None, value, text)];
    }

    /** command_parse */
    constructor (s: string)
      requires '\0' !in s
      ensures original == s && tokens == TokensOf(Texts(s, 0))
      ensures first == First(tokens)
    {
      original := s;
      tokens, first := [], 0;
      new;
      Scan(s);
      if |tokens| > 0 && tokens[0].name.None? {
        first := 1;
      }
    }

    /** The loop over the characters and the NUL behind them */
    method Scan(s: string)
      requires '\0' !in s && tokens == []
      modifies `tokens
      ensures tokens == TokensOf(Texts(s, 0))
    {
      if s == "" {
        return;
      }
      var start, pos: nat, state := 0, 0, Initial;
      while state != Final
        invariant Scanning(s, tokens, start, pos, state)
        decreases state != Final, |s| - pos
      {
        var c := if pos < |s| then s[pos] else '\0';
        assert c == '\0' <==> pos == |s|;
        ScanStep(s, tokens, start, pos, state);
        ghost var pushed := tokens + Completed(s, start, pos, state);
        if state == InToken && (IsSpace(c) || c == '\0') {
          PushArg(s[start..pos]);
        }
        assert tokens == pushed;
        if IsGraph(c) && (state == Initial || state == White) {
          start := pos;
        }
        state := NewState(c, state);
        pos := pos + 1;
      }
    }
  }

  /** The switches on the state; a token begins by falling through to the state inside one */
  method NewState(c: char, state: State) returns (state': State)
    requires !state.Final?
    ensures state' == StateAfter(state, c)
  {
    state' := state;
    if IsGraph(c) {
      if state' == Initial || state' == White {
        state' := InToken;
      }
      if state' == InToken {
        if c == '\'' {
          state' := InQuote;
        } else if c == '"' {
          state' := InDoubleQuote;
        }
      } else if state' == InQuote {
        if c == '\'' { state' := InToken; }
      } else if state' == InDoubleQuote {
        if c == '"' { state' := InToken; }
      }
    } else if IsSpace(c) || c == '\0' {
      if state' == Initial || state' == InToken {
        state' := White;
      }
    }
    if c == '\0' {
      state' := Final;
    }
  }

  function QuoteOf(state: State): Quote {
    if state.InQuote? then Single else if state.InDoubleQuote? then Double else NoQuote
  }

  /** What the characters from pos on will add, in a state */
  function Remaining(s: string, start: nat, pos: nat, state: State): seq<string>
    requires pos <= |s|
  {
    if state.Initial? || state.White? then Texts(s, pos)
    else if start < pos then TextsFrom(s, start, TokenEnd(s, pos, QuoteOf(state)))
    else []
  }

  ghost predicate Scanning(s: string, tokens: seq<Token>, start: nat, pos: nat, state: State) {
    if state.Final? then tokens == TokensOf(Texts(s, 0))
    else
      && pos <= |s| && (!state.Initial? && !state.White? ==> start < pos)
      && TokensOf(Texts(s, 0)) == tokens + TokensOf(Remaining(s, start, pos, state))
  }

  lemma {:induction false} TokensConcat(a: seq<string>, b: seq<string>)
    ensures TokensOf(a + b) == TokensOf(a) + TokensOf(b)
  {
  }

  /** The state after a character, or after the NUL at the end */
  function StateAfter(state: State, c: char): State {
    if c == '\0' then Final
    else if IsGraph(c) then
      (if state.InQuote? then (if c == '\'' then InToken else InQuote)
       else if state.InDoubleQuote? then (if c == '"' then InToken else InDoubleQuote)
       else if c == '\'' then InQuote else if c == '"' then InDoubleQuote else InToken)
    else if IsSpace(c) && (state.Initial? || state.InToken?) then White
    else state
  }

  /** A character that completes no token leaves what remains as it was */
  lemma RemainingSame(s: string, start: nat, pos: nat, state: State)
    requires pos < |s| && !state.Final? && (!state.Initial? && !state.White? ==> start < pos)
    requires !(IsSpace(s[pos]) && state.InToken?) && s[pos] != '\0'
    ensures var start' := if IsGraph(s[pos]) && (state.Initial? || state.White?) then pos else start;
            Remaining(s, start', pos + 1, StateAfter(state, s[pos])) == Remaining(s, start, pos, state)
  {
    var c := s[pos];
    if state.Initial? || state.White? {
      if IsGraph(c) {
        assert TokenEnd(s, pos, NoQuote) == TokenEnd(s, pos + 1, Next(NoQuote, c));
        assert QuoteOf(StateAfter(state, c)) == Next(NoQuote, c);
      }
    } else {
      var quote := QuoteOf(state);
      assert QuoteOf(StateAfter(state, c)) == Next(quote, c);
      assert TokenEnd(s, pos, quote) == TokenEnd(s, pos + 1, Next(quote, c));
    }
  }

  /** White space in a token completes it */
  lemma RemainingText(s: string, start: nat, pos: nat)
    requires start < pos < |s| && IsSpace(s[pos])
    ensures TokensOf(Remaining(s, start, pos, InToken)) == [TokenOf(s[start..pos])] + TokensOf(Texts(s, pos + 1))
  {
    assert TokenEnd(s, pos, NoQuote) == Some(pos);
    TokensConcat([s[start..pos]], Texts(s, pos + 1));
  }

  lemma RemainingAtEnd(s: string, start: nat, state: State)
    requires !state.Final? && (!state.Initial? && !state.White? ==> start < |s|)
    ensures Remaining(s, start, |s|, state) == if state.InToken? then [s[start..|s|]] else []
  {
    assert TokenEnd(s, |s|, QuoteOf(state)) == if QuoteOf(state).NoQuote? then Some(|s|) else None;
  }

  /** The token that the character at pos, or the end of the string, completes */
  function Completed(s: string, start: nat, pos: nat, state: State): seq<Token>
    requires pos <= |s| && (state.InToken? ==> start <= pos)
  {
    if state.InToken? && (pos == |s| || IsSpace(s[pos])) then [TokenOf(s[start..pos])] else []
  }

  lemma ScanStep(s: string, tokens: seq<Token>, start: nat, pos: nat, state: State)
    requires Scanning(s, tokens, start, pos, state) && !state.Final? && '\0' !in s
    ensures var c := if pos < |s| then s[pos] else '\0';
            Scanning(s, tokens + Completed(s, start, pos, state),
                     if IsGraph(c) && (state.Initial? || state.White?) then pos
                         else start, pos + 1, StateAfter(state, c))
  {
    if pos == |s| {
      ScanAtEnd(s, tokens, start, state);
    } else if IsSpace(s[pos]) && state.InToken? {
      ScanTokenEnd(s, tokens, start, pos);
    } else {
      RemainingSame(s, start, pos, state);
      assert tokens + [] == tokens;
    }
  }

  lemma ScanAtEnd(s: string, tokens: seq<Token>, start: nat, state: State)
    requires Scanning(s, tokens, start, |s|, state) && !state.Final?
    ensures Scanning(s, tokens + Completed(s, start, |s|, state), start, |s| + 1, StateAfter(state, '\0'))
  {
    RemainingAtEnd(s, start, state);
    if state.InToken? {
      assert TokensOf([s[start..|s|]]) == [TokenOf(s[start..|s|])];
    } else {
      assert tokens + [] == tokens;
    }
  }

  lemma ScanTokenEnd(s: string, tokens: seq<Token>, start: nat, pos: nat)
    requires Scanning(s, tokens, start, pos, InToken) && pos < |s| && IsSpace(s[pos])
    ensures Scanning(s, tokens + Completed(s, start, pos, InToken), start, pos + 1, StateAfter(InToken, s[pos]))
  {
    RemainingText(s, start, pos);
    OneMoreToken(tokens, TokenOf(s[start..pos]), TokensOf(Texts(s, pos + 1)));
  }

  lemma OneMoreToken(a: seq<Token>, t: Token, b: seq<Token>)
    ensures a + ([t] + b) == (a + [t]) + b
  {
  }

  // ----- what the tokens are -----

  /**
    A text that is one token: it starts with a visible character, its marks are balanced, and any
    white space is inside them
  */
  predicate IsTokenText(text: string) {
    text != "" && IsGraph(text[0]) && TokenEnd(text, 0, NoQuote) == Some(|text|)
  }

  lemma {:induction false} TokenEndInside(s: string, start: nat, i: nat, quote: Quote)
    requires start <= i <= |s| && TokenEnd(s, i, quote).Some?
    ensures var e := TokenEnd(s, i, quote).value;
            TokenEnd(s[start..e], i - start, quote) == Some(e - start)
    decreases |s| - i
  {
    var e := TokenEnd(s, i, quote).value;
    if i < e {
      assert s[start..e][i - start] == s[i];
      TokenEndInside(s, start, i + 1, Next(quote, s[i]));
    }
  }

  datatype Span = Span(from: nat, to: nat)

  /** texts are the stretches spans of s, one behind the other from position i on */
  ghost predicate Stretches(s: string, i: nat, texts: seq<string>, spans: seq<Span>) {
    && |spans| == |texts|
    && (forall k :: 0 <= k < |spans| ==>
        i <= spans[k].from < spans[k].to <= |s| && texts[k] == s[spans[k].from..spans[k].to])
    && (forall k, l :: 0 <= k < l < |spans| ==> spans[k].to < spans[l].from)
  }

  /** The texts are disjoint stretches of the string in order ... */
  lemma {:induction false} TextsAreStretches(s: string, i: nat) returns (spans: seq<Span>)
    requires i <= |s|
    ensures Stretches(s, i, Texts(s, i), spans)
    decreases |s| - i
  {
    spans := [];
    if i < |s| {
      var end := TokenEnd(s, i, NoQuote);
      if !IsGraph(s[i]) {
        spans := TextsAreStretches(s, i + 1);
      } else if end.Some? {
        assert end.value > i;
        var later := if end.value < |s| then Texts(s, end.value + 1) else [];
        if end.value < |s| {
          spans := TextsAreStretches(s, end.value + 1);
        }
        spans := StretchInFront(s, i, end.value, later, spans);
      }
    }
  }

  /** ... and each is a token by itself */
  lemma {:induction false} TextsAreTokens(s: string, i: nat)
    requires i <= |s|
    ensures forall k :: 0 <= k < |Texts(s, i)| ==> IsTokenText(Texts(s, i)[k])
    decreases |s| - i
  {
    if i < |s| {
      var end := TokenEnd(s, i, NoQuote);
      if !IsGraph(s[i]) {
        TextsAreTokens(s, i + 1);
      } else if end.Some? {
        assert end.value > i;
        TokenEndInside(s, i, i, NoQuote);
        var text := s[i..end.value];
        assert IsTokenText(text);
        if end.value < |s| {
          TextsAreTokens(s, end.value + 1);
          assert Texts(s, i) == [text] + Texts(s, end.value + 1);
        }
      }
    }
  }

  lemma StretchInFront(s: string, from: nat, to: nat, texts: seq<string>, spans: seq<Span>) returns (all: seq<Span>)
    requires from < to <= |s| && (Stretches(s, to + 1, texts, spans) || (texts == [] && spans == []))
    ensures Stretches(s, from, [s[from..to]] + texts, all)
  {
    all := [Span(from, to)] + spans;
    var whole := [s[from..to]] + texts;
    assert forall k :: 1 <= k < |all| ==> all[k] == spans[k - 1];
    assert forall k :: 1 <= k < |whole| ==> whole[k] == texts[k - 1];
  }

  // ----- parsing the texts again -----

  /** The texts with a blank between them */
  function Joined(texts: seq<string>): string {
    if texts == [] then "" else texts[0] + if |texts| == 1 then "" else " " + Joined(texts[1..])
  }

  lemma {:induction false} TokenEndShift(a: string, b: string, i: nat, quote: Quote)
    requires i <= |b|
    ensures var end := TokenEnd(b, i, quote);
            TokenEnd(a + b, |a| + i, quote) == if end.Some? then Some(|a| + end.value) else None
    decreases |b| - i
  {
    if i < |b| {
      assert (a + b)[|a| + i] == b[i];
      TokenEndShift(a, b, i + 1, Next(quote, b[i]));
    }
  }

  lemma SliceShift(a: string, b: string, i: nat, j: nat)
    requires i <= j <= |b|
    ensures (a + b)[|a| + i..|a| + j] == b[i..j]
  {
  }

  /** What lies in front of a position does not matter to the texts behind it */
  lemma {:induction false} TextsShift(a: string, b: string, i: nat)
    requires i <= |b|
    ensures Texts(a + b, |a| + i) == Texts(b, i)
    decreases |b| - i
  {
    if i < |b| {
      assert (a + b)[|a| + i] == b[i];
      if !IsGraph(b[i]) {
        TextsShift(a, b, i + 1);
      } else {
        TokenEndShift(a, b, i, NoQuote);
        var end := TokenEnd(b, i, NoQuote);
        if end.Some? && end.value < |b| {
          TextsShift(a, b, end.value + 1);
        }
        TextsFromShift(a, b, i, end);
      }
    }
  }

  lemma TextsFromShift(a: string, b: string, start: nat, end: Option<nat>)
    requires start < |b| && (end.Some? ==> start <= end.value <= |b|)
    requires end.Some? && end.value < |b| ==> Texts(a + b, |a| + end.value + 1) == Texts(b, end.value + 1)
    ensures TextsFrom(a + b, |a| + start, if end.Some? then Some(|a| + end.value) else None) == TextsFrom(b, start, end)
  {
    if end.Some? {
      SliceShift(a, b, start, end.value);
    }
  }

  /** A token text followed by white space, or by nothing, ends there */
  lemma {:induction false} TokenEndBefore(text: string, rest: string, i: nat, quote: Quote)
    requires i <= |text| && TokenEnd(text, i, quote) == Some(|text|)
    requires rest == "" || IsSpace(rest[0])
    ensures TokenEnd(text + rest, i, quote) == Some(|text|)
    decreases |text| - i
  {
    if i < |text| {
      assert (text + rest)[i] == text[i];
      TokenEndBefore(text, rest, i + 1, Next(quote, text[i]));
    } else if rest != "" {
      assert (text + rest)[i] == rest[0];
    }
  }

  /** Any token texts, joined by blanks, are the texts of the result */
  lemma {:induction false} JoinedTexts(texts: seq<string>)
    requires forall k :: 0 <= k < |texts| ==> IsTokenText(texts[k])
    ensures Texts(Joined(texts), 0) == texts
    decreases |texts|
  {
    if texts != [] {
      var text := texts[0];
      var rest := if |texts| == 1 then "" else " " + Joined(texts[1..]);
      var s := text + rest;
      TokenEndBefore(text, rest, 0, NoQuote);
      assert s[0] == text[0] && s[0..|text|] == text;
      JoinedTexts(texts[1..]);
      if |texts| > 1 {
        assert s == (text + " ") + Joined(texts[1..]);
        TextsShift(text + " ", Joined(texts[1..]), 0);
      }
      assert [text] + texts[1..] == texts;
    }
  }

  /** Parsing the texts of a string again, joined by blanks, gives the same tokens */
  lemma ParseAgain(s: string)
    ensures TokensOf(Texts(Joined(Texts(s, 0)), 0)) == TokensOf(Texts(s, 0))
  {
    TextsAreTokens(s, 0);
    JoinedTexts(Texts(s, 0));
  }

  /** The lists of texts that parsing can give are exactly the lists of token texts */
  lemma ParsableExactly(texts: seq<string>)
    ensures (exists s :: Texts(s, 0) == texts) <==> forall k :: 0 <= k < |texts| ==> IsTokenText(texts[k])
  {
    if s :| Texts(s, 0) == texts {
      TextsAreTokens(s, 0);
    }
    if forall k :: 0 <= k < |texts| ==> IsTokenText(texts[k]) {
      JoinedTexts(texts);
    }
  }

  /** A value in quotation marks comes out as it was put in, whatever is in it */
  lemma QuotedValue(name: string, value: string)
    requires '=' !in name
    ensures TokenOf(name + "=\"" + value + "\"").name == Some(name)
    ensures TokenOf(name + "=\"" + value + "\"").value == value
  {
    var text := name + "=\"" + value + "\"";
    EqualsAfter(name, "=\"" + value + "\"");
    assert text == name + ("=\"" + value + "\"");
    assert text[|name| + 1..] == "\"" + value + "\"";
    assert text[..|name|] == name;
  }

  /** Visible characters other than quotation marks are a token; white space in front of it is passed over */
  lemma WordIsToken(text: string, blank: char)
    requires text != "" && forall k :: 0 <= k < |text| ==> '!' <= text[k] <= '~' && text[k] != '"' && text[k] != '\''
    requires blank == ' ' || 9 as char <= blank <= 13 as char
    ensures IsTokenText(text) && Texts([blank] + text, 0) == [text]
  {
    NamePassed(text, 0, |text|);
    OneText(text);
    TextsShift([blank], text, 0);
    assert ([blank] + text)[0] == blank && !IsGraph(blank);
  }

  /** A value in front of which there is no quotation mark comes out as it was put in, and no other does */
  lemma PlainValueExactly(name: string, value: string)
    requires '=' !in name
    ensures TokenOf(name + "=" + value).name == Some(name)
    ensures TokenOf(name + "=" + value).value == value <==> value == "" || (value[0] != '"' && value[0] != '\'')
  {
    ValueOf(name, value);
  }

  /** The same for a token without a name, which is all value */
  lemma PlainTextExactly(text: string)
    requires '=' !in text
    ensures TokenOf(text).name == None
    ensures TokenOf(text).value == text <==> text == "" || (text[0] != '"' && text[0] != '\'')
  {
    NoEquals(text);
  }

  /** A mark in front is lost, and with it one at the end, if there is one: it need not be of the same kind */
  lemma MarkInFront(name: string, mark: char, value: string)
    requires '=' !in name && (mark == '"' || mark == '\'')
    ensures var n := |value|;
            TokenOf(name + "=" + [mark] + value).value
            == if n > 0 && (value[n - 1] == '"' || value[n - 1] == '\'') then value[..n - 1] else value
  {
    var marked := [mark] + value;
    assert name + "=" + [mark] + value == name + "=" + marked;
    ValueOf(name, marked);
    assert marked[1..] == value && (value != "" ==> marked[1..|marked| - 1] == value[..|value| - 1]);
  }

  lemma ValueOf(name: string, value: string)
    requires '=' !in name
    ensures TokenOf(name + "=" + value) == Token(Some(name), Unquoted(value), name + "=" + value)
  {
    var text := name + "=" + value;
    assert text == name + ("=" + value);
    EqualsAfter(name, "=" + value);
    assert text[..|name|] == name && text[|name| + 1..] == value;
  }

  lemma {:induction false} NoEquals(text: string)
    requires '=' !in text
    ensures Equals(text) == |text|
  {
    if text != "" {
      NoEquals(text[1..]);
    }
  }

  lemma {:induction false} EqualsAfter(name: string, rest: string)
    requires '=' !in name && rest != "" && rest[0] == '='
    ensures Equals(name + rest) == |name|
  {
    if name == "" {
      assert name + rest == rest;
    } else {
      assert (name + rest)[1..] == name[1..] + rest;
      EqualsAfter(name[1..], rest);
    }
  }

  // ----- a quoted value, through the whole parser -----

  /**
    The marks in a value that stands in double quotation marks: they leave it as it entered,
    inside double quotation marks, and on the way no white space is outside of any
  */
  predicate StaysQuoted(value: string, quote: Quote) {
    Leads(value, quote, Double)
  }

  /** From one quoting state to another, with no white space outside of quotation marks on the way */
  predicate Leads(value: string, from: Quote, to: Quote) {
    if value == "" then from == to
    else !(from.NoQuote? && IsSpace(value[0])) && Leads(value[1..], Next(from, value[0]), to)
  }

  lemma {:induction false} QuotedEnd(s: string, i: nat, value: string, quote: Quote)
    requires i <= |s| && s[i..] == value + "\""
    ensures TokenEnd(s, i, quote) == Some(|s|) <==> StaysQuoted(value, quote)
    decreases |value|
  {
    assert s[i] == s[i..][0] && s[i..][1..] == s[i + 1..];
    if value == "" {
      assert s[i] == '"' && |s| == i + 1;
    } else {
      assert (value + "\"")[1..] == value[1..] + "\"";
      QuotedEnd(s, i + 1, value[1..], Next(quote, value[0]));
    }
  }

  /** A name as it can stand in front of a quoted value */
  predicate IsName(name: string) {
    && (forall k :: 0 <= k < |name| ==> !IsSpace(name[k]) && !IsMark(name[k]) && name[k] != '=')
    && (name != "" ==> IsGraph(name[0]))
  }

  lemma {:induction false} NamePassed(s: string, i: nat, n: nat)
    requires i <= n <= |s| && forall k :: i <= k < n ==> !IsSpace(s[k]) && !IsMark(s[k])
    ensures TokenEnd(s, i, NoQuote) == TokenEnd(s, n, NoQuote)
    decreases n - i
  {
    if i < n {
      NamePassed(s, i + 1, n);
    }
  }

  /** The end of the token that name="value" begins */
  lemma AssignmentEnd(name: string, value: string)
    requires IsName(name)
    ensures var s := name + "=\"" + value + "\"";
            IsGraph(s[0]) && (TokenEnd(s, 0, NoQuote) == Some(|s|) <==> StaysQuoted(value, Double))
            && TokenEnd(s, 0, NoQuote) == TokenEnd(s, |name| + 2, Double)
  {
    var s, n := name + "=\"" + value + "\"", |name|;
    assert forall k :: 0 <= k < n ==> s[k] == name[k];
    assert s[n] == '=' && s[n + 1] == '"';
    assert s[n + 2..] == value + "\"";
    NamePassed(s, 0, n + 1);
    assert TokenEnd(s, n + 1, NoQuote) == TokenEnd(s, n + 2, Double);
    QuotedEnd(s, n + 2, value, Double);
  }

  /**
    The string name="value" is parsed into one token with that name and value exactly when the
    marks in the value stay quoted; a value without double quotation marks always does. Otherwise
    white space cuts the string, or a mark is left open.
  */
  lemma QuotedValueExactly(name: string, value: string)
    requires IsName(name)
    ensures var s := name + "=\"" + value + "\"";
            TokensOf(Texts(s, 0)) == [Token(Some(name), value, s)] <==> StaysQuoted(value, Double)
  {
    var s := name + "=\"" + value + "\"";
    AssignmentEnd(name, value);
    QuotedValue(name, value);
    OneText(s);
    OneToken(s, Texts(s, 0));
  }

  /** A token text, a blank and anything: the text comes out first */
  lemma TextThen(text: string, rest: string)
    requires IsTokenText(text)
    ensures Texts(text + " " + rest, 0) == [text] + Texts(rest, 0)
  {
    var s := text + " " + rest;
    assert s == text + (" " + rest);
    TokenEndBefore(text, " " + rest, 0, NoQuote);
    assert s[0] == text[0] && s[0..|text|] == text;
    TextsShift(text + " ", rest, 0);
  }

  /**
    When the marks in the value do not stay quoted, no token comes out of name="value", or the
    first one has that name and a value that is too short
  */
  lemma ValueCut(name: string, value: string)
    requires IsName(name) && !StaysQuoted(value, Double)
    ensures var texts := Texts(name + "=\"" + value + "\"", 0);
            texts == [] || (TokenOf(texts[0]).name == Some(name) && |TokenOf(texts[0]).value| < |value|)
  {
    var s, n := name + "=\"" + value + "\"", |name|;
    AssignmentEnd(name, value);
    var end := TokenEnd(s, 0, NoQuote);
    if end.Some? {
      assert s[|s| - 1] == '"';
      ShortAssignment(name, value, s, s[0..end.value]);
    }
  }

  lemma ShortAssignment(name: string, value: string, s: string, text: string)
    requires '=' !in name && s == name + "=\"" + value + "\""
    requires |name| + 2 <= |text| <= |s| - 2 && text == s[0..|text|]
    ensures TokenOf(text).name == Some(name) && |TokenOf(text).value| < |value|
  {
    var rest := s[|name|..|text|];
    assert rest[0] == '=' && rest[1] == '"';
    assert text == name + rest;
    EqualsAfter(name, rest);
    assert text[..|name|] == name && text[|name| + 1] == rest[1];
  }

  lemma OneText(s: string)
    requires s != "" && IsGraph(s[0])
    ensures Texts(s, 0) == [s] <==> TokenEnd(s, 0, NoQuote) == Some(|s|)
  {
    var end := TokenEnd(s, 0, NoQuote);
    assert Texts(s, 0) == TextsFrom(s, 0, end);
    if end.Some? {
      var rest := if end.value < |s| then Texts(s, end.value + 1) else [];
      assert TextsFrom(s, 0, end) == [s[0..end.value]] + rest;
      assert ([s[0..end.value]] + rest)[0] == s[0..end.value];
      assert |s[0..end.value]| == end.value && s[0..|s|] == s;
    }
  }

  lemma OneToken(s: string, texts: seq<string>)
    ensures TokensOf(texts) == [TokenOf(s)] <==> texts == [s]
  {
    if |texts| == 1 {
      assert TokensOf(texts)[0] == TokenOf(texts[0]);
      assert [TokenOf(s)][0] == TokenOf(s);
      assert texts == [texts[0]];
    }
  }

  // ----- a value without quotation marks around it, through the whole parser -----

  lemma {:induction false} PlainEnd(s: string, i: nat, value: string, quote: Quote)
    requires i <= |s| && s[i..] == value
    ensures TokenEnd(s, i, quote) == Some(|s|) <==> Leads(value, quote, NoQuote)
    decreases |value|
  {
    if value != "" {
      assert s[i] == value[0] && s[i + 1..] == value[1..];
      PlainEnd(s, i + 1, value[1..], Next(quote, value[0]));
    }
  }

  lemma PlainAssignmentEnd(name: string, value: string)
    requires IsName(name)
    ensures var s := name + "=" + value;
            IsGraph(s[0]) && (TokenEnd(s, 0, NoQuote) == Some(|s|) <==> Leads(value, NoQuote, NoQuote))
            && TokenEnd(s, 0, NoQuote) == TokenEnd(s, |name| + 1, NoQuote)
  {
    var s, n := name + "=" + value, |name|;
    assert forall k :: 0 <= k < n ==> s[k] == name[k];
    assert s[n] == '=' && s[n + 1..] == value;
    NamePassed(s, 0, n + 1);
    PlainEnd(s, n + 1, value, NoQuote);
  }

  /**
    The string name=value is one token exactly when the marks in the value are balanced and hold
    all its white space
  */
  lemma PlainAssignmentExactly(name: string, value: string)
    requires IsName(name)
    ensures var s := name + "=" + value;
            Texts(s, 0) == [s] <==> Leads(value, NoQuote, NoQuote)
  {
    PlainAssignmentEnd(name, value);
    OneText(name + "=" + value);
  }

  /** Otherwise no token comes out of it, or the first one has that name and a value that is too short */
  lemma PlainValueCut(name: string, value: string)
    requires IsName(name) && !Leads(value, NoQuote, NoQuote)
    ensures var texts := Texts(name + "=" + value, 0);
            texts == [] || (TokenOf(texts[0]).name == Some(name) && |TokenOf(texts[0]).value| < |value|)
  {
    var s, n := name + "=" + value, |name|;
    PlainAssignmentEnd(name, value);
    var end := TokenEnd(s, 0, NoQuote);
    if end.Some? {
      ShortPlain(name, value, s, s[0..end.value]);
    }
  }

  lemma ShortPlain(name: string, value: string, s: string, text: string)
    requires '=' !in name && s == name + "=" + value
    requires |name| + 1 <= |text| < |s| && text == s[0..|text|]
    ensures TokenOf(text).name == Some(name) && |TokenOf(text).value| < |value|
  {
    var rest := s[|name|..|text|];
    assert rest[0] == '=' && text == name + rest;
    EqualsAfter(name, rest);
    assert text[..|name|] == name;
  }

  /** A value without any quotation marks is one token exactly when it has no white space */
  lemma {:induction false} PlainWordExactly(value: string)
    requires '"' !in value && '\'' !in value
    ensures Leads(value, NoQuote, NoQuote)
            <==> forall k :: 0 <= k < |value| ==> value[k] != ' ' && !(9 as char <= value[k] <= 13 as char)
  {
    if value != "" {
      PlainWordExactly(value[1..]);
      assert Next(NoQuote, value[0]) == NoQuote;
      assert forall k :: 0 < k < |value| ==> value[k] == value[1..][k - 1];
    }
  }

  /** A blank behind a double mark of its own cuts the value a" b */
  lemma BlankCutsValue(value: string)
    requires value == "a\" b"
    ensures !StaysQuoted(value, Double)
  {
    assert value[1..][0] == '"' && value[1..][1..][0] == ' ';
    assert Next(Double, 'a') == Double && Next(Double, '"') == NoQuote;
    assert !Leads(value[1..][1..], NoQuote, Double);
    assert !Leads(value[1..], Double, Double);
  }

  lemma {:induction false} NoDoubleMarks(value: string)
    requires '"' !in value
    ensures StaysQuoted(value, Double)
  {
    if value != "" {
      NoDoubleMarks(value[1..]);
    }
  }
}

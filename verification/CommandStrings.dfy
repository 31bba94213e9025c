/**
  What command_args of command.c stores for an argument that takes a string: the value of a token
  matched by name, the text of a token matched by position, and either without marks around it.
*/
module CommandStrings {

  import opened CommandArgs
  import opened CommandParse
  import opened Quoting
  import opened Wrappers

  predicate IsWrapped(s: string) {
    s != "" && IsMark(s[0]) && IsMark(s[|s| - 1])
  }

  /** The marks around a string are taken off, if it has one at each end */
  function Bare(s: string): string {
    if !IsWrapped(s) then s else if |s| == 1 then "" else s[1..|s| - 1]
  }

  function NamesOf(tokens: seq<Token>): (names: Names)
    ensures |names| == |tokens| && forall k :: 0 <= k < |tokens| ==> names[k] == tokens[k].name
  {
    seq(|tokens|, k requires 0 <= k < |tokens| => tokens[k].name)
  }

  /** The string for the i-th argument, if it gets a token */
  function StoredString(tokens: seq<Token>, first: nat, args: Names, i: nat): Option<string>
    requires first <= |tokens| && i < |args|
  {
    var d := Matched(NamesOf(tokens), first, args, i);
    if d == UNMATCHED then None
    else if ByName(NamesOf(tokens), first, args, i) != UNMATCHED then Some(Bare(tokens[d].value))
    else Some(Bare(tokens[d].text))
  }

  /** command_args with string arguments only; the strings of the first pass are stored before the second one */
  method StringArgs(tokens: seq<Token>, first: nat, args: Names) returns (strings: seq<Option<string>>)
    requires first <= |tokens|
    ensures |strings| == |args|
    ensures forall i :: 0 <= i < |args| ==> strings[i] == StoredString(tokens, first, args, i)
  {
    var names := NamesOf(tokens);
    var byName := NamedMatches(names, first, args);
    var chosen := MatchArgs(names, first, args);
    strings := [];
    for i := 0 to |args|
      invariant |strings| == i && forall k :: 0 <= k < i ==> strings[k] == StoredString(tokens, first, args, k)
    {
      var d := chosen[i];
      if d == UNMATCHED {
        strings := strings + [None];
      } else {
        strings := strings + [Some(Bare(if byName[i] != UNMATCHED then tokens[d].value else tokens[d].text))];
      }
    }
  }

  method NamedMatches(names: Names, first: nat, args: Names) returns (byName: seq<int>)
    requires first <= |names|
    ensures |byName| == |args| && forall i :: 0 <= i < |args| ==> byName[i] == ByName(names, first, args, i)
  {
    var isUsed;
    isUsed, byName := MatchByName(names, first, args);
  }

  /** Marks at both ends, of whatever kinds, and what is between them; a mark alone is at both its ends */
  lemma WrappedIs(s: string)
    ensures IsWrapped(s) <==> s != "" && s[0] in "'\"" && s[|s| - 1] in "'\""
    ensures IsWrapped(s) ==> Bare(s) == if |s| == 1 then "" else s[1..|s| - 1]
  {
    forall c: char ensures IsMark(c) <==> c in "'\"" {
      assert "'\""[0] == '\'' && "'\""[1] == '"';
    }
  }

  lemma BareExactly(value: string)
    ensures Bare(value) == value <==> !IsWrapped(value)
  {
    assert IsWrapped(value) ==> |Bare(value)| < |value|;
  }

  /** What an argument gets of a command with this text behind its name */
  function Delivered(cmd: string, behind: string, argument: Option<string>): Option<string> {
    var tokens := TokensOf(Texts(cmd + " " + behind, 0));
    StoredString(tokens, First(tokens), [argument], 0)
  }

  /** What an argument called name gets of the command  cmd name="value"  */
  function DeliveredQuoted(cmd: string, name: string, value: string): Option<string> {
    Delivered(cmd, name + "=\"" + value + "\"", Some(name))
  }

  /** And of the command  cmd name=value  */
  function DeliveredPlain(cmd: string, name: string, value: string): Option<string> {
    Delivered(cmd, name + "=" + value, Some(name))
  }

  predicate IsCommandName(cmd: string) {
    IsTokenText(cmd) && '=' !in cmd
  }

  lemma DeliveredIs(cmd: string, behind: string, argument: Option<string>)
    requires IsCommandName(cmd)
    ensures Delivered(cmd, behind, argument)
            == StoredString([TokenOf(cmd)] + TokensOf(Texts(behind, 0)), 1, [argument], 0)
  {
    var texts := Texts(behind, 0);
    TextThen(cmd, behind);
    assert ([cmd] + texts)[1..] == texts;
    NoEquals(cmd);
  }

  /** A value that stays in one token is delivered without marks of its own around it */
  lemma BareIsDelivered(cmd: string, name: string, value: string)
    requires IsCommandName(cmd) && IsName(name) && StaysQuoted(value, Double)
    ensures DeliveredQuoted(cmd, name, value) == Some(Bare(value))
  {
    var assignment := name + "=\"" + value + "\"";
    DeliveredIs(cmd, assignment, Some(name));
    QuotedValueExactly(name, value);
    OneNamed(NamesOf([TokenOf(cmd)] + [Token(Some(name), value, assignment)]), name);
  }

  /** Any other is cut, or gets lost */
  lemma LessIsDelivered(cmd: string, name: string, value: string)
    requires IsCommandName(cmd) && IsName(name) && !StaysQuoted(value, Double)
    ensures var stored := DeliveredQuoted(cmd, name, value);
            stored.None? || |stored.value| < |value|
  {
    DeliveredIs(cmd, name + "=\"" + value + "\"", Some(name));
    ValueCut(name, value);
    ShorterStored(TokenOf(cmd), Texts(name + "=\"" + value + "\"", 0), name, |value|);
  }

  lemma ShorterStored(command: Token, texts: seq<string>, name: string, length: nat)
    requires texts == [] || (TokenOf(texts[0]).name == Some(name) && |TokenOf(texts[0]).value| < length)
    ensures var stored := StoredString([command] + TokensOf(texts), 1, [Some(name)], 0);
            stored.None? || |stored.value| < length
  {
    var tokens := [command] + TokensOf(texts);
    if texts == [] {
      NoneBehind(NamesOf(tokens), Some(name));
    } else {
      assert tokens[1] == TokenOf(texts[0]);
      OneNamed(NamesOf(tokens), name);
    }
  }

  /**
    From the command line to the argument: of the command  cmd name="value"  an argument called
    name gets that value exactly when the marks in the value keep it in one token and it does not
    have marks of its own at both ends.
  */
  lemma StringDeliveredExactly(cmd: string, name: string, value: string)
    requires IsCommandName(cmd) && IsName(name)
    ensures DeliveredQuoted(cmd, name, value) == Some(value)
            <==> StaysQuoted(value, Double)
                 && !(value != "" && value[0] in "'\"" && value[|value| - 1] in "'\"")
  {
    WrappedIs(value);
    if StaysQuoted(value, Double) {
      BareIsDelivered(cmd, name, value);
      BareExactly(value);
    } else {
      LessIsDelivered(cmd, name, value);
    }
  }

  /** Of the value a" b the argument gets less */
  lemma BlankIsLost(cmd: string, name: string, value: string)
    requires IsCommandName(cmd) && IsName(name) && value == "a\" b"
    ensures DeliveredQuoted(cmd, name, value) != Some(value)
  {
    BlankCutsValue(value);
    LessIsDelivered(cmd, name, value);
  }

  /** Of the value 'a' it gets the letter without its marks */
  lemma MarksAreLost(cmd: string, name: string, value: string)
    requires IsCommandName(cmd) && IsName(name) && value == "'a'"
    ensures DeliveredQuoted(cmd, name, value) == Some("a")
  {
    NoDoubleMarks(value);
    BareIsDelivered(cmd, name, value);
    assert value[1..|value| - 1] == "a";
  }

  // ----- values without quotation marks around them -----

  lemma PlainIsDelivered(cmd: string, name: string, value: string)
    requires IsCommandName(cmd) && IsName(name) && Leads(value, NoQuote, NoQuote)
    ensures DeliveredPlain(cmd, name, value) == Some(Bare(TokenOf(name + "=" + value).value))
  {
    var assignment := name + "=" + value;
    DeliveredIs(cmd, assignment, Some(name));
    PlainAssignmentExactly(name, value);
    PlainValueExactly(name, value);
    OneNamed(NamesOf([TokenOf(cmd)] + TokensOf([assignment])), name);
  }

  lemma LessOfPlain(cmd: string, name: string, value: string)
    requires IsCommandName(cmd) && IsName(name) && !Leads(value, NoQuote, NoQuote)
    ensures var stored := DeliveredPlain(cmd, name, value);
            stored.None? || |stored.value| < |value|
  {
    DeliveredIs(cmd, name + "=" + value, Some(name));
    PlainValueCut(name, value);
    ShorterStored(TokenOf(cmd), Texts(name + "=" + value, 0), name, |value|);
  }

  /**
    From the command line to the argument: of the command  cmd name=value  an argument called name
    gets that value exactly when the marks in the value are balanced and hold all its white space,
    and it does not begin with one.
  */
  lemma PlainDeliveredExactly(cmd: string, name: string, value: string)
    requires IsCommandName(cmd) && IsName(name)
    ensures DeliveredPlain(cmd, name, value) == Some(value)
            <==> Leads(value, NoQuote, NoQuote) && (value == "" || (value[0] != '"' && value[0] != '\''))
  {
    if Leads(value, NoQuote, NoQuote) {
      PlainIsDelivered(cmd, name, value);
      var v := TokenOf(name + "=" + value).value;
      PlainValueExactly(name, value);
      ValueIsNoLonger(name, value);
      assert |Bare(v)| <= |v| && (v == value && !IsWrapped(value) ==> Bare(v) == value);
    } else {
      LessOfPlain(cmd, name, value);
    }
  }

  lemma ValueIsNoLonger(name: string, value: string)
    requires '=' !in name
    ensures var v := TokenOf(name + "=" + value).value;
            v == value || |v| < |value|
  {
    ValueOf(name, value);
  }

  /**
    An argument without a name gets the text behind the command name exactly when it is a token as
    it stands, and does not have marks at both ends.
  */
  lemma TextDeliveredExactly(cmd: string, text: string)
    requires IsCommandName(cmd)
    ensures Delivered(cmd, text, None) == Some(text)
            <==> IsTokenText(text) && !(text != "" && text[0] in "'\"" && text[|text| - 1] in "'\"")
  {
    WrappedIs(text);
    DeliveredIs(cmd, text, None);
    UnnamedStored(TokenOf(cmd), Texts(text, 0));
    BareExactly(text);
    if IsTokenText(text) {
      OneText(text);
    } else if Texts(text, 0) != [] {
      FirstIsShorter(text);
    }
  }

  lemma UnnamedStored(command: Token, texts: seq<string>)
    ensures StoredString([command] + TokensOf(texts), 1, [None], 0) == if texts == [] then None
            else Some(Bare(texts[0]))
  {
    var tokens := [command] + TokensOf(texts);
    if texts == [] {
      NoneBehind(NamesOf(tokens), None);
    } else {
      assert tokens[1] == TokenOf(texts[0]);
      FirstUnnamed(NamesOf(tokens));
    }
  }

  lemma FirstIsShorter(text: string)
    requires Texts(text, 0) != []
    ensures var first := Texts(text, 0)[0];
            IsTokenText(first) && (first == text || |first| < |text|)
  {
    TextsAreTokens(text, 0);
    FirstFrom(text, 0);
  }

  lemma {:induction false} FirstFrom(s: string, i: nat)
    requires i <= |s| && Texts(s, i) != []
    ensures var first := Texts(s, i)[0];
            |first| <= |s| - i && (|first| == |s| ==> first == s)
    decreases |s| - i
  {
    if i < |s| && !IsGraph(s[i]) {
      FirstFrom(s, i + 1);
    } else {
      var end := TokenEnd(s, i, NoQuote);
      assert Texts(s, i)[0] == s[i..end.value];
    }
  }

  /** The first token behind the command name goes to an argument without a name, too */
  lemma FirstUnnamed(names: Names)
    requires |names| >= 2
    ensures ByName(names, 1, [None], 0) == UNMATCHED && Matched(names, 1, [None], 0) == 1
  {
    var mask := Named(names, None);
    var free := Free(names, 1, [None]);
    NoneNamed(mask, 1, Earlier([None], 0, None));
    assert free[1] && Rank(free, 1, 1) == 0;
    NthIsRank(free, 1, 0, 1);
  }

  lemma {:induction false} NoneNamed(mask: seq<bool>, lo: nat, k: nat)
    requires forall d :: 0 <= d < |mask| ==> !mask[d]
    ensures Nth(mask, lo, k) == UNMATCHED
    decreases |mask| - lo
  {
    if lo < |mask| {
      NoneNamed(mask, lo + 1, k);
    }
  }

  /** The first token behind the command name goes to an argument of its name */
  lemma OneNamed(names: Names, name: string)
    requires |names| >= 2 && names[1] == Some(name)
    ensures ByName(names, 1, [Some(name)], 0) == Matched(names, 1, [Some(name)], 0) == 1
  {
    var mask := Named(names, Some(name));
    assert Rank(mask, 1, 1) == 0;
    NthIsRank(mask, 1, 0, 1);
    assert Earlier([Some(name)], 0, Some(name)) == 0;
  }

  lemma NoneBehind(names: Names, argument: Option<string>)
    requires |names| == 1
    ensures Matched(names, 1, [argument], 0) == UNMATCHED
  {
  }
}

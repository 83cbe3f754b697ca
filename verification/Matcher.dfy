/**
  The regular-expression matcher of Lab/code/grep.c:66-106. A pattern denotes a list of items;
  a text is in its language when it splits into pieces, one for each item.
 */
module Matcher {

  datatype Item =
    | Literal(c: char)
    | Any
    | Star(c: char)    // zero or more of c; of anything for '.'
    | End              // the end of the text

  /** The items of a pattern: x* binds first, a final $ is the end, a dot is any character. */
  function Items(re: string): seq<Item> {
    if re == "" then []
    else if |re| > 1 && re[1] == '*' then [Star(re[0])] + Items(re[2..])
    else if re == "$" then [End]
    else [if re[0] == '.' then Any else Literal(re[0])] + Items(re[1..])
  }

  function Join(pieces: seq<string>): string {
    if pieces == [] then "" else pieces[0] + Join(pieces[1..])
  }

  /** `piece` is what `item` stands for, with `rest` the text after the whole match. */
  ghost predicate Fits(item: Item, piece: string, rest: string) {
    match item
    case Literal(c) => piece == [c]
    case Any => |piece| == 1
    case Star(c) => forall i :: 0 <= i < |piece| ==> piece[i] == c || c == '.'
    case End => piece == "" && rest == ""
  }

  ghost predicate Splits(items: seq<Item>, pieces: seq<string>, w: string, rest: string) {
    |pieces| == |items| && Join(pieces) == w && forall i :: 0 <= i < |items| ==> Fits(items[i], pieces[i], rest)
  }

  ghost predicate InLanguage(items: seq<Item>, w: string, rest: string) {
    exists pieces :: Splits(items, pieces, w, rest)
  }

  /** Some prefix of the text is in the language. */
  ghost predicate MatchesPrefix(items: seq<Item>, text: string) {
    exists k :: 0 <= k <= |text| && InLanguage(items, text[..k], text[k..])
  }

  /** Some substring of the text is in the language; for a pattern starting with ^, some prefix. */
  ghost predicate MatchesSomewhere(re: string, text: string) {
    if re != "" && re[0] == '^' then MatchesPrefix(Items(re[1..]), text)
    else exists i, j :: 0 <= i <= j <= |text| && InLanguage(Items(re), text[i..j], text[j..])
  }

  // ---- the language, item by item ----

  lemma {:induction false} NoItems(text: string)
    ensures MatchesPrefix([], text)
  {
    assert Splits([], [], text[..0], text[0..]);
    assert InLanguage([], text[..0], text[0..]);
  }

  lemma {:induction false} OnlyEnd(text: string)
    ensures MatchesPrefix([End], text) <==> text == ""
  {
    if text == "" {
      assert Join([""]) == "" + Join([""][1..]);
      assert Splits([End], [""], text[..0], text[0..]);
      assert InLanguage([End], text[..0], text[0..]);
    }
    if MatchesPrefix([End], text) {
      var k :| 0 <= k <= |text| && InLanguage([End], text[..k], text[k..]);
      var pieces :| Splits([End], pieces, text[..k], text[k..]);
      assert pieces[1..] == [];
      assert Join(pieces) == pieces[0] + Join(pieces[1..]) == pieces[0];
      assert Fits(End, pieces[0], text[k..]);
      assert text[..k] == "" && text[k..] == "";
    }
  }

  /** The first piece of a match is a prefix of the text; the other items match behind it. */
  lemma {:induction false} SplitOff(items: seq<Item>, text: string)
    requires items != []
    ensures MatchesPrefix(items, text) ==>
              exists n :: 0 <= n <= |text| && StartsWith(items, text, n)
  {
    if MatchesPrefix(items, text) {
      var k :| 0 <= k <= |text| && InLanguage(items, text[..k], text[k..]);
      var pieces :| Splits(items, pieces, text[..k], text[k..]);
      var n, rest := |pieces[0]|, text[k..];
      assert Join(pieces) == pieces[0] + Join(pieces[1..]);
      assert pieces[0] == text[..n];
      var tail := Join(pieces[1..]);
      assert tail == (pieces[0] + tail)[n..] == text[..k][n..];
      assert tail == text[n..][..k - n];
      assert text[n..][k - n..] == rest;
      forall i | 0 <= i < |items[1..]|
        ensures Fits(items[1..][i], pieces[1..][i], rest)
      {
        assert items[1..][i] == items[i + 1] && pieces[1..][i] == pieces[i + 1];
      }
      assert Splits(items[1..], pieces[1..], text[n..][..k - n], text[n..][k - n..]);
      assert InLanguage(items[1..], text[n..][..k - n], text[n..][k - n..]);
      assert items[0].End? ==> Fits(items[0], pieces[0], rest);
      assert StartsWith(items, text, n);
    }
  }

  /** The first item takes `n` characters and the other items match behind them. */
  ghost predicate StartsWith(items: seq<Item>, text: string, n: nat)
    requires items != [] && n <= |text|
  {
    && MatchesPrefix(items[1..], text[n..])
    && (!items[0].End? ==> Fits(items[0], text[..n], ""))
  }

  lemma {:induction false} PutOn(items: seq<Item>, text: string, n: nat)
    requires items != [] && !items[0].End? && n <= |text| && StartsWith(items, text, n)
    ensures MatchesPrefix(items, text)
  {
    var k :| 0 <= k <= |text[n..]| && InLanguage(items[1..], text[n..][..k], text[n..][k..]);
    var pieces :| Splits(items[1..], pieces, text[n..][..k], text[n..][k..]);
    var all := [text[..n]] + pieces;
    assert all[1..] == pieces;
    assert Join(all) == text[..n] + text[n..][..k] == text[..n + k];
    assert text[n..][k..] == text[n + k..];
    forall i | 0 <= i < |items|
      ensures Fits(items[i], all[i], text[n + k..])
    {
      assert i > 0 ==> items[i] == items[1..][i - 1] && all[i] == pieces[i - 1];
    }
    assert Splits(items, all, text[..n + k], text[n + k..]);
    assert InLanguage(items, text[..n + k], text[n + k..]);
  }

  lemma {:induction false} OneCharacter(items: seq<Item>, text: string)
    requires items != [] && (items[0].Literal? || items[0].Any?)
    ensures MatchesPrefix(items, text) <==>
              text != "" && (items[0].Any? || items[0].c == text[0]) && MatchesPrefix(items[1..], text[1..])
  {
    if MatchesPrefix(items, text) {
      SplitOff(items, text);
      var n :| 0 <= n <= |text| && StartsWith(items, text, n);
      assert n == 1;
    }
    if text != "" && (items[0].Any? || items[0].c == text[0]) && MatchesPrefix(items[1..], text[1..]) {
      assert text[..1] == [text[0]];
      assert StartsWith(items, text, 1);
      PutOn(items, text, 1);
    }
  }

  /** All of text[..n] can be taken by c*. */
  ghost predicate Repeats(c: char, text: string, n: nat) {
    n <= |text| && forall i :: 0 <= i < n ==> text[i] == c || c == '.'
  }

  lemma {:induction false} ManyCharacters(items: seq<Item>, text: string)
    requires items != [] && items[0].Star?
    ensures MatchesPrefix(items, text) <==>
              exists n :: 0 <= n <= |text| && Repeats(items[0].c, text, n) && MatchesPrefix(items[1..], text[n..])
  {
    if MatchesPrefix(items, text) {
      SplitOff(items, text);
      var n :| 0 <= n <= |text| && StartsWith(items, text, n);
      forall i | 0 <= i < n
        ensures text[i] == items[0].c || items[0].c == '.'
      {
        assert text[..n][i] == text[i];
      }
      assert Repeats(items[0].c, text, n);
    }
    if n :| 0 <= n <= |text| && Repeats(items[0].c, text, n) && MatchesPrefix(items[1..], text[n..]) {
      assert StartsWith(items, text, n);
      PutOn(items, text, n);
    }
  }

  // ---- the code ----

  /** Is the pattern matched at the beginning of the text? */
  method MatchHere(re: string, text: string) returns (r: bool)
    ensures r <==> MatchesPrefix(Items(re), text)
    decreases |re|, 0
  {
    hide MatchesPrefix, InLanguage;
    if re == "" {
      NoItems(text);
      return true;
    }
    if |re| > 1 && re[1] == '*' {
      assert Items(re)[1..] == Items(re[2..]);
      ManyCharacters(Items(re), text);
      r := MatchStar(re[0], re[2..], text);
      return;
    }
    if re == "$" {
      OnlyEnd(text);
      return text == "";
    }
    assert Items(re)[1..] == Items(re[1..]);
    OneCharacter(Items(re), text);
    if text != "" && (re[0] == '.' || re[0] == text[0]) {
      r := MatchHere(re[1..], text[1..]);
      return;
    }
    return false;
  }

  /** Is c* followed by the pattern matched at the beginning of the text? */
  method MatchStar(c: char, re: string, text: string) returns (r: bool)
    ensures r <==> exists n :: 0 <= n <= |text| && Repeats(c, text, n) && MatchesPrefix(Items(re), text[n..])
    decreases |re|, 1
  {
    hide MatchesPrefix, Items;
    var n := 0;
    while true
      invariant n <= |text| && Repeats(c, text, n)
      invariant forall m :: 0 <= m < n ==> !MatchesPrefix(Items(re), text[m..])
      decreases |text| - n
    {
      var here := MatchHere(re, text[n..]);
      if here {
        return true;
      }
      if n == |text| || !(text[n] == c || c == '.') {
        return false;
      }
      n := n + 1;
    }
  }

  /** Is the pattern matched anywhere in the text? */
  method Match(re: string, text: string) returns (r: bool)
    ensures r <==> MatchesSomewhere(re, text)
  {
    if re != "" && re[0] == '^' {
      r := MatchHere(re[1..], text);
      return;
    }
    var i := 0;
    while true
      invariant i <= |text|
      invariant forall m :: 0 <= m < i ==> !MatchesPrefix(Items(re), text[m..])
      decreases |text| - i
    {
      var here := MatchHere(re, text[i..]);
      if here {
        SomewhereFrom(Items(re), text, i);
        return true;
      }
      if i == |text| {
        break;
      }
      i := i + 1;
    }
    forall i, j | 0 <= i <= j <= |text| && InLanguage(Items(re), text[i..j], text[j..])
      ensures false
    {
      assert text[i..][..j - i] == text[i..j] && text[i..][j - i..] == text[j..];
      assert MatchesPrefix(Items(re), text[i..]);
    }
    return false;
  }

  lemma {:induction false} SomewhereFrom(items: seq<Item>, text: string, i: nat)
    requires i <= |text| && MatchesPrefix(items, text[i..])
    ensures exists m, j :: 0 <= m <= j <= |text| && InLanguage(items, text[m..j], text[j..])
  {
    var k :| 0 <= k <= |text[i..]| && InLanguage(items, text[i..][..k], text[i..][k..]);
    assert text[i..][..k] == text[i..i + k] && text[i..][k..] == text[i + k..];
    assert InLanguage(items, text[i..i + k], text[i + k..]);
  }
}

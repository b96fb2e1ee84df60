/** The XML escaping the plugin's inline EPUB builder applies to the note
    text before placing it in the XHTML body (main.ts:120-126): five
    character replacements, `&` first, then every line feed becomes
    `<br/>` followed by the line feed. */
module Escaping {
  import opened Text

  /** The chain of global replacements, in the order the source applies them. */
  function EscapeContent(content: string): string {
    ReplaceAll(
      ReplaceAll(
        ReplaceAll(
          ReplaceAll(
            ReplaceAll(
              ReplaceAll(content, '&', "&amp;"),
              '<', "&lt;"),
            '>', "&gt;"),
          '"', "&quot;"),
        '\'', "&#039;"),
      '\n', "<br/>\n")
  }

  /** What one character of the note becomes in the escaped text. */
  function EscapeChar(c: char): string {
    match c
    case '&' => "&amp;"
    case '<' => "&lt;"
    case '>' => "&gt;"
    case '"' => "&quot;"
    case '\'' => "&#039;"
    case '\n' => "<br/>\n"
    case _ => [c]
  }

  /** Reference definition: each character escaped on its own, in order. */
  function EscapeEach(s: string): string {
    if s == [] then [] else EscapeChar(s[0]) + EscapeEach(s[1..])
  }

  /** The six passes over the text agree with escaping each character on
      its own. This holds because `&` goes first: no later pass produces an
      `&`, and no replacement text contains a character a later pass replaces
      except `&`, which is already done. */
  lemma {:induction false} ChainIsPerCharacter(s: string)
    ensures EscapeContent(s) == EscapeEach(s)
  {
    if s != [] {
      ChainIsPerCharacter(s[1..]);
      assert s == [s[0]] + s[1..];
      ChainSplits([s[0]], s[1..]);
      ChainOfOne(s[0]);
    }
  }

  lemma ChainSplits(a: string, b: string)
    ensures EscapeContent(a + b) == EscapeContent(a) + EscapeContent(b)
  {
    var amp := ReplaceAll(a + b, '&', "&amp;");
    ReplaceAllConcat(a, b, '&', "&amp;");
    var a1, b1 := ReplaceAll(a, '&', "&amp;"), ReplaceAll(b, '&', "&amp;");
    ReplaceAllConcat(a1, b1, '<', "&lt;");
    var a2, b2 := ReplaceAll(a1, '<', "&lt;"), ReplaceAll(b1, '<', "&lt;");
    ReplaceAllConcat(a2, b2, '>', "&gt;");
    var a3, b3 := ReplaceAll(a2, '>', "&gt;"), ReplaceAll(b2, '>', "&gt;");
    ReplaceAllConcat(a3, b3, '"', "&quot;");
    var a4, b4 := ReplaceAll(a3, '"', "&quot;"), ReplaceAll(b3, '"', "&quot;");
    ReplaceAllConcat(a4, b4, '\'', "&#039;");
    var a5, b5 := ReplaceAll(a4, '\'', "&#039;"), ReplaceAll(b4, '\'', "&#039;");
    ReplaceAllConcat(a5, b5, '\n', "<br/>\n");
  }

  /** The chain applied to a single character: the pass for the character
      itself replaces it, and no later pass touches the replacement. */
  lemma ChainOfOne(c: char)
    ensures EscapeContent([c]) == EscapeChar(c)
  {
    if c == '&' {
      ChainOfAmp(c, EscapeChar(c));
    } else if c == '<' {
      ChainOfLt(c, EscapeChar(c));
    } else if c == '>' {
      ChainOfGt(c, EscapeChar(c));
    } else if c == '"' {
      ChainOfQuot(c, EscapeChar(c));
    } else if c == '\'' {
      ChainOfApos(c, EscapeChar(c));
    } else if c == '\n' {
      ChainOfNewline(c, EscapeChar(c));
    } else {
      ReplaceAllOne(c, '&', "&amp;");
      ReplaceAllOne(c, '<', "&lt;");
      ReplaceAllOne(c, '>', "&gt;");
      ReplaceAllOne(c, '"', "&quot;");
      ReplaceAllOne(c, '\'', "&#039;");
      ReplaceAllOne(c, '\n', "<br/>\n");
    }
  }

  // The ChainOf lemmas below take the character and its replacement as
  // parameters that their requires fix, rather than as literals: this keeps
  // the solver from evaluating the passes on the literal texts.

  lemma ChainOfAmp(c: char, r: string)
    requires c == '&' && r == "&amp;"
    ensures EscapeContent([c]) == r
  {
    ReplaceAllOne(c, '&', "&amp;");
    EntitySurvives(r);
    ChainThrough([c], r, r, r, r, r, r);
  }

  lemma ChainOfLt(c: char, r: string)
    requires c == '<' && r == "&lt;"
    ensures EscapeContent([c]) == r
  {
    ReplaceAllOne(c, '&', "&amp;");
    ReplaceAllOne(c, '<', "&lt;");
    EntitySurvives(r);
    ChainThrough([c], [c], r, r, r, r, r);
  }

  lemma ChainOfGt(c: char, r: string)
    requires c == '>' && r == "&gt;"
    ensures EscapeContent([c]) == r
  {
    ReplaceAllOne(c, '&', "&amp;");
    ReplaceAllOne(c, '<', "&lt;");
    ReplaceAllOne(c, '>', "&gt;");
    EntitySurvives(r);
    ChainThrough([c], [c], [c], r, r, r, r);
  }

  lemma ChainOfQuot(c: char, r: string)
    requires c == '"' && r == "&quot;"
    ensures EscapeContent([c]) == r
  {
    ReplaceAllOne(c, '&', "&amp;");
    ReplaceAllOne(c, '<', "&lt;");
    ReplaceAllOne(c, '>', "&gt;");
    ReplaceAllOne(c, '"', "&quot;");
    EntitySurvives(r);
    ChainThrough([c], [c], [c], [c], r, r, r);
  }

  lemma ChainOfApos(c: char, r: string)
    requires c == '\'' && r == "&#039;"
    ensures EscapeContent([c]) == r
  {
    ReplaceAllOne(c, '&', "&amp;");
    ReplaceAllOne(c, '<', "&lt;");
    ReplaceAllOne(c, '>', "&gt;");
    ReplaceAllOne(c, '"', "&quot;");
    ReplaceAllOne(c, '\'', "&#039;");
    EntitySurvives(r);
    ChainThrough([c], [c], [c], [c], [c], r, r);
  }

  lemma ChainOfNewline(c: char, r: string)
    requires c == '\n' && r == "<br/>\n"
    ensures EscapeContent([c]) == r
  {
    ReplaceAllOne(c, '&', "&amp;");
    ReplaceAllOne(c, '<', "&lt;");
    ReplaceAllOne(c, '>', "&gt;");
    ReplaceAllOne(c, '"', "&quot;");
    ReplaceAllOne(c, '\'', "&#039;");
    ReplaceAllOne(c, '\n', "<br/>\n");
    ChainThrough([c], [c], [c], [c], [c], [c], r);
  }

  /** No pass after the first touches an entity reference. */
  lemma EntitySurvives(r: string)
    requires '<' !in r && '>' !in r && '"' !in r && '\'' !in r && '\n' !in r
    ensures ReplaceAll(r, '<', "&lt;") == r && ReplaceAll(r, '>', "&gt;") == r
    ensures ReplaceAll(r, '"', "&quot;") == r && ReplaceAll(r, '\'', "&#039;") == r
    ensures ReplaceAll(r, '\n', "<br/>\n") == r
  {
    ReplaceAllAbsent(r, '<', "&lt;");
    ReplaceAllAbsent(r, '>', "&gt;");
    ReplaceAllAbsent(r, '"', "&quot;");
    ReplaceAllAbsent(r, '\'', "&#039;");
    ReplaceAllAbsent(r, '\n', "<br/>\n");
  }

  /** The chain, one pass at a time. */
  lemma ChainThrough(s: string, s1: string, s2: string, s3: string, s4: string, s5: string, s6: string)
    requires ReplaceAll(s, '&', "&amp;") == s1 && ReplaceAll(s1, '<', "&lt;") == s2
    requires ReplaceAll(s2, '>', "&gt;") == s3 && ReplaceAll(s3, '"', "&quot;") == s4
    requires ReplaceAll(s4, '\'', "&#039;") == s5 && ReplaceAll(s5, '\n', "<br/>\n") == s6
    ensures EscapeContent(s) == s6
  {
  }

  /** Reads the escaped text back: each of the five entity references, and
      `<br/>` before a line feed, stands for the character it replaced;
      anything else stands for itself. */
  function Unescape(t: string): string
    decreases |t|
  {
    if t == [] then []
    else if StartsWith(t, "&amp;") then "&" + Unescape(t[5..])
    else if StartsWith(t, "&lt;") then "<" + Unescape(t[4..])
    else if StartsWith(t, "&gt;") then ">" + Unescape(t[4..])
    else if StartsWith(t, "&quot;") then "\"" + Unescape(t[6..])
    else if StartsWith(t, "&#039;") then "'" + Unescape(t[6..])
    else if StartsWith(t, "<br/>\n") then "\n" + Unescape(t[6..])
    else [t[0]] + Unescape(t[1..])
  }

  /** Escaping loses nothing: reading the escaped text back gives the note. */
  lemma {:induction false} UnescapeEscape(s: string)
    ensures Unescape(EscapeContent(s)) == s
  {
    ChainIsPerCharacter(s);
    UnescapeEach(s);
  }

  lemma {:induction false} UnescapeEach(s: string)
    ensures Unescape(EscapeEach(s)) == s
  {
    if s != [] {
      UnescapeEach(s[1..]);
      UnescapeFront(s[0], EscapeEach(s[1..]));
      assert s == [s[0]] + s[1..];
    }
  }

  lemma UnescapeFront(c: char, rest: string)
    ensures Unescape(EscapeChar(c) + rest) == [c] + Unescape(rest)
  {
    if c == '&' {
      assert EscapeChar(c) == "&amp;";
      UnescapeAmp(rest);
    } else if c == '<' {
      assert EscapeChar(c) == "&lt;";
      UnescapeLt(rest);
    } else if c == '>' {
      assert EscapeChar(c) == "&gt;";
      UnescapeGt(rest);
    } else if c == '"' {
      assert EscapeChar(c) == "&quot;";
      UnescapeQuot(rest);
    } else if c == '\'' {
      assert EscapeChar(c) == "&#039;";
      UnescapeApos(rest);
    } else if c == '\n' {
      assert EscapeChar(c) == "<br/>\n";
      UnescapeBreak(rest);
    } else {
      assert EscapeChar(c) == [c];
      UnescapePlain(c, rest);
    }
  }

  lemma UnescapeAmp(rest: string)
    ensures Unescape("&amp;" + rest) == "&" + Unescape(rest)
  {
    var t := "&amp;" + rest;
    assert t[..5] == "&amp;" && t[5..] == rest;
  }

  lemma UnescapeLt(rest: string)
    ensures Unescape("&lt;" + rest) == "<" + Unescape(rest)
  {
    var t := "&lt;" + rest;
    assert t[1] == 'l';
    assert !StartsWith(t, "&amp;");
    assert t[..4] == "&lt;" && t[4..] == rest;
  }

  lemma UnescapeGt(rest: string)
    ensures Unescape("&gt;" + rest) == ">" + Unescape(rest)
  {
    var t := "&gt;" + rest;
    assert t[1] == 'g';
    assert !StartsWith(t, "&amp;");
    assert !StartsWith(t, "&lt;");
    assert t[..4] == "&gt;" && t[4..] == rest;
  }

  lemma UnescapeQuot(rest: string)
    ensures Unescape("&quot;" + rest) == "\"" + Unescape(rest)
  {
    var t := "&quot;" + rest;
    assert t[1] == 'q';
    assert !StartsWith(t, "&amp;");
    assert !StartsWith(t, "&lt;");
    assert !StartsWith(t, "&gt;");
    assert t[..6] == "&quot;" && t[6..] == rest;
  }

  lemma UnescapeApos(rest: string)
    ensures Unescape("&#039;" + rest) == "'" + Unescape(rest)
  {
    var t := "&#039;" + rest;
    assert t[1] == '#';
    assert !StartsWith(t, "&amp;");
    assert !StartsWith(t, "&lt;");
    assert !StartsWith(t, "&gt;");
    assert !StartsWith(t, "&quot;");
    assert t[..6] == "&#039;" && t[6..] == rest;
  }

  lemma UnescapeBreak(rest: string)
    ensures Unescape("<br/>\n" + rest) == "\n" + Unescape(rest)
  {
    var t := "<br/>\n" + rest;
    assert t[0] == '<';
    assert !StartsWith(t, "&amp;");
    assert !StartsWith(t, "&lt;");
    assert !StartsWith(t, "&gt;");
    assert !StartsWith(t, "&quot;");
    assert !StartsWith(t, "&#039;");
    assert t[..6] == "<br/>\n" && t[6..] == rest;
  }

  lemma UnescapePlain(c: char, rest: string)
    requires c !in "&<"
    ensures Unescape([c] + rest) == [c] + Unescape(rest)
  {
    var t := [c] + rest;
    assert t[0] == c && t[1..] == rest;
    assert !StartsWith(t, "&amp;") && !StartsWith(t, "&lt;") && !StartsWith(t, "&gt;");
    assert !StartsWith(t, "&quot;") && !StartsWith(t, "&#039;") && !StartsWith(t, "<br/>\n");
  }

  /** An `&` in the escaped text begins one of the five entity references. */
  predicate EntityAt(t: string) {
    StartsWith(t, "&amp;") || StartsWith(t, "&lt;") || StartsWith(t, "&gt;")
    || StartsWith(t, "&quot;") || StartsWith(t, "&#039;")
  }

  /** What the escaped text may contain: no quote or apostrophe at all; a `<`
      or `>` only inside a `<br/>` that precedes a line feed; a line feed
      only after `<br/>`; an `&` only at the start of an entity reference. */
  predicate SafeText(r: string) {
    NoQuotes(r) && LtOnlyInBreak(r) && GtOnlyInBreak(r) && NewlineOnlyAfterBreak(r) && AmpOnlyInEntity(r)
  }

  predicate NoQuotes(r: string) {
    forall i :: 0 <= i < |r| ==> r[i] != '"' && r[i] != '\''
  }

  predicate LtOnlyInBreak(r: string) {
    forall i :: 0 <= i < |r| && r[i] == '<' ==> StartsWith(r[i..], "<br/>\n")
  }

  predicate GtOnlyInBreak(r: string) {
    forall i :: 0 <= i < |r| && r[i] == '>' ==> 4 <= i && StartsWith(r[i - 4..], "<br/>\n")
  }

  predicate NewlineOnlyAfterBreak(r: string) {
    forall i :: 0 <= i < |r| && r[i] == '\n' ==> 5 <= i && StartsWith(r[i - 5..], "<br/>\n")
  }

  predicate AmpOnlyInEntity(r: string) {
    forall i :: 0 <= i < |r| && r[i] == '&' ==> EntityAt(r[i..])
  }

  lemma {:induction false} EscapedIsSafe(s: string)
    ensures SafeText(EscapeContent(s))
  {
    ChainIsPerCharacter(s);
    EachIsSafe(s);
  }

  lemma {:induction false} EachIsSafe(s: string)
    ensures SafeText(EscapeEach(s))
  {
    if s != [] {
      EachIsSafe(s[1..]);
      var e, rest := EscapeChar(s[0]), EscapeEach(s[1..]);
      assert NoQuotes(e + rest);
      LtPrepend(s[0], rest);
      GtPrepend(s[0], rest);
      NewlinePrepend(s[0], rest);
      AmpPrepend(s[0], rest);
    }
  }

  lemma LtPrepend(c: char, rest: string)
    requires LtOnlyInBreak(rest)
    ensures LtOnlyInBreak(EscapeChar(c) + rest)
  {
    var e := EscapeChar(c);
    var r := e + rest;
    forall i | 0 <= i < |r| && r[i] == '<'
      ensures StartsWith(r[i..], "<br/>\n")
    {
      if i < |e| {
        MarkupIn(c, i);
        PrefixStartsWith(e, rest, "<br/>\n");
      } else {
        assert r[i..] == rest[i - |e|..];
      }
    }
  }

  lemma GtPrepend(c: char, rest: string)
    requires GtOnlyInBreak(rest)
    ensures GtOnlyInBreak(EscapeChar(c) + rest)
  {
    var e := EscapeChar(c);
    var r := e + rest;
    forall i | 0 <= i < |r| && r[i] == '>'
      ensures 4 <= i && StartsWith(r[i - 4..], "<br/>\n")
    {
      if i < |e| {
        MarkupIn(c, i);
        PrefixStartsWith(e, rest, "<br/>\n");
        assert r[i - 4..] == r;
      } else {
        var j := i - |e|;
        assert rest[j] == '>';
        assert r[i - 4..] == rest[j - 4..];
      }
    }
  }

  lemma NewlinePrepend(c: char, rest: string)
    requires NewlineOnlyAfterBreak(rest)
    ensures NewlineOnlyAfterBreak(EscapeChar(c) + rest)
  {
    var e := EscapeChar(c);
    var r := e + rest;
    forall i | 0 <= i < |r| && r[i] == '\n'
      ensures 5 <= i && StartsWith(r[i - 5..], "<br/>\n")
    {
      if i < |e| {
        MarkupIn(c, i);
        PrefixStartsWith(e, rest, "<br/>\n");
        assert r[i - 5..] == r;
      } else {
        var j := i - |e|;
        assert rest[j] == '\n';
        assert r[i - 5..] == rest[j - 5..];
      }
    }
  }

  lemma AmpPrepend(c: char, rest: string)
    requires AmpOnlyInEntity(rest)
    ensures AmpOnlyInEntity(EscapeChar(c) + rest)
  {
    var e := EscapeChar(c);
    var r := e + rest;
    forall i | 0 <= i < |r| && r[i] == '&'
      ensures EntityAt(r[i..])
    {
      if i < |e| {
        MarkupIn(c, i);
        assert r[i..] == r;
        EntityPrefix(c, rest);
      } else {
        assert r[i..] == rest[i - |e|..];
      }
    }
  }

  /** Where the markup characters sit in one escaped character: `<`, `>` and
      line feed only in the `<br/>` line break, `&` only first, and only
      for the four entity-escaped characters; no quote or apostrophe. */
  lemma MarkupIn(c: char, i: int)
    requires 0 <= i < |EscapeChar(c)|
    ensures EscapeChar(c)[i] == '<' ==> c == '\n' && i == 0
    ensures EscapeChar(c)[i] == '>' ==> c == '\n' && i == 4
    ensures EscapeChar(c)[i] == '\n' ==> c == '\n' && i == 5
    ensures EscapeChar(c)[i] == '&' ==> i == 0 && c in "&<>\"'"
    ensures c == '\n' ==> EscapeChar(c) == "<br/>\n"
  {
    var e := EscapeChar(c);
    if c == '&' {
      assert e == "&amp;";
    } else if c == '<' {
      assert e == "&lt;";
    } else if c == '>' {
      assert e == "&gt;";
    } else if c == '"' {
      assert e == "&quot;";
    } else if c == '\'' {
      assert e == "&#039;";
    } else if c == '\n' {
      assert e == "<br/>\n";
    } else {
      assert e == [c];
    }
  }

  /** A text that starts with a prefix still does after anything is appended. */
  lemma PrefixStartsWith(e: string, rest: string, p: string)
    requires StartsWith(e, p)
    ensures StartsWith(e + rest, p)
  {
    assert (e + rest)[..|p|] == e[..|p|];
  }

  /** The escape of each entity-escaped character is an entity reference,
      whatever follows it. */
  lemma EntityPrefix(c: char, rest: string)
    requires c in "&<>\"'"
    ensures EntityAt(EscapeChar(c) + rest)
  {
    var e := EscapeChar(c);
    if c == '&' {
      assert e == "&amp;" && StartsWith(e, "&amp;");
      PrefixStartsWith(e, rest, "&amp;");
    } else if c == '<' {
      assert e == "&lt;" && StartsWith(e, "&lt;");
      PrefixStartsWith(e, rest, "&lt;");
    } else if c == '>' {
      assert e == "&gt;" && StartsWith(e, "&gt;");
      PrefixStartsWith(e, rest, "&gt;");
    } else if c == '"' {
      assert e == "&quot;" && StartsWith(e, "&quot;");
      PrefixStartsWith(e, rest, "&quot;");
    } else {
      assert e == "&#039;" && StartsWith(e, "&#039;");
      PrefixStartsWith(e, rest, "&#039;");
    }
  }

  /** The escaping keeps the number of line feeds: each one becomes
      `<br/>` followed by that same line feed. */
  lemma {:induction false} NewlinesKept(s: string)
    ensures multiset(EscapeContent(s))['\n'] == multiset(s)['\n']
  {
    ChainIsPerCharacter(s);
    NewlinesKeptEach(s);
  }

  lemma {:induction false} NewlinesKeptEach(s: string)
    ensures multiset(EscapeEach(s))['\n'] == multiset(s)['\n']
  {
    if s != [] {
      NewlinesKeptEach(s[1..]);
      NewlinesInPiece(s[0]);
      NewlineCountPrepend(s, EscapeChar(s[0]), EscapeEach(s[1..]));
    }
  }

  lemma NewlineCountPrepend(s: string, e: string, rest: string)
    requires s != []
    requires multiset(e)['\n'] == (if s[0] == '\n' then 1 else 0)
    requires multiset(rest)['\n'] == multiset(s[1..])['\n']
    ensures multiset(e + rest)['\n'] == multiset(s)['\n']
  {
    assert multiset(e + rest) == multiset(e) + multiset(rest);
    assert s == [s[0]] + s[1..];
    assert multiset(s) == multiset([s[0]]) + multiset(s[1..]);
  }

  lemma NewlinesInPiece(c: char)
    ensures multiset(EscapeChar(c))['\n'] == if c == '\n' then 1 else 0
  {
    if c == '\n' {
      assert EscapeChar(c) == "<br/>" + "\n";
      assert '\n' !in multiset("<br/>");
    } else {
      assert '\n' !in EscapeChar(c);
    }
  }
}

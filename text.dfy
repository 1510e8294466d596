/** String helpers shared by the renderers and the chat handlers, and the
    HTML escaping that `renderUserMessage` applies to user-authored text. */
module Text {

  predicate StartsWith(s: string, prefix: string) {
    |prefix| <= |s| && s[..|prefix|] == prefix
  }

  /** The characters `String.prototype.trim` removes (white space and line
      terminators of ECMAScript). */
  predicate IsJsWhitespace(c: char) {
    c == ' ' || c == '\t' || c == '\n' || c == '\U{000B}' || c == '\U{000C}' || c == '\r'
    || c == '\U{00A0}' || c == '\U{1680}' || ('\U{2000}' <= c <= '\U{200A}')
    || c == '\U{2028}' || c == '\U{2029}' || c == '\U{202F}' || c == '\U{205F}'
    || c == '\U{3000}' || c == '\U{FEFF}'
  }

  /** `!s.trim()`: the string is empty once trimmed. */
  predicate IsBlank(s: string) {
    forall i :: 0 <= i < |s| ==> IsJsWhitespace(s[i])
  }

  /** `s.trimStart()`: the leading white space removed. */
  function TrimStart(s: string): (r: string)
    ensures |r| <= |s| && r == s[|s| - |r|..]
    ensures r == [] || !IsJsWhitespace(r[0])
    ensures forall i :: 0 <= i < |s| - |r| ==> IsJsWhitespace(s[i])
  {
    if s != [] && IsJsWhitespace(s[0]) then TrimStart(s[1..]) else s
  }

  /** `s.trimEnd()`: the trailing white space removed. */
  function TrimEnd(s: string): (r: string)
    ensures |r| <= |s| && r == s[..|r|]
    ensures r == [] || !IsJsWhitespace(r[|r| - 1])
    ensures forall i :: |r| <= i < |s| ==> IsJsWhitespace(s[i])
  {
    if s != [] && IsJsWhitespace(s[|s| - 1]) then TrimEnd(s[..|s| - 1]) else s
  }

  /** `s.trim()`. */
  function Trim(s: string): string {
    TrimEnd(TrimStart(s))
  }

  /** A string is blank exactly when trimming leaves nothing, so `IsBlank`
      is the falsiness of `s.trim()`. */
  lemma BlankIffTrimEmpty(s: string)
    ensures IsBlank(s) <==> Trim(s) == []
  {
  }

  /** `s.replace(/c/g, rep)` for a single literal character `c`. */
  function ReplaceChar(s: string, c: char, rep: string): (r: string)
    ensures c !in rep ==> c !in r
    ensures c !in s ==> r == s
  {
    if s == [] then []
    else (if s[0] == c then rep else [s[0]]) + ReplaceChar(s[1..], c, rep)
  }

  lemma {:induction false} ReplaceCharAppend(a: string, b: string, c: char, rep: string)
    ensures ReplaceChar(a + b, c, rep) == ReplaceChar(a, c, rep) + ReplaceChar(b, c, rep)
  {
    if a != [] {
      var h := if a[0] == c then rep else [a[0]];
      assert (a + b)[0] == a[0];
      assert (a + b)[1..] == a[1..] + b;
      assert ReplaceChar(a + b, c, rep) == h + ReplaceChar(a[1..] + b, c, rep);
      ReplaceCharAppend(a[1..], b, c, rep);
      var x, y := ReplaceChar(a[1..], c, rep), ReplaceChar(b, c, rep);
      assert ReplaceChar(a, c, rep) == h + x;
      assert h + (x + y) == (h + x) + y;
    } else {
      assert a + b == b;
    }
  }

  /** `renderUserMessage`: the five entity replacements, ampersand first,
      followed by turning every line feed into a `<br />` tag. */
  function RenderUserMessage(content: string): (r: string)
    ensures '\n' !in r
  {
    var escaped :=
      ReplaceChar(ReplaceChar(ReplaceChar(ReplaceChar(ReplaceChar(
        content, '&', "&amp;"), '<', "&lt;"), '>', "&gt;"), '"', "&quot;"), '\'', "&#039;");
    ReplaceChar(escaped, '\n', "<br />")
  }

  /** What a single input character turns into, read as an independent
      one-pass definition of the escaping. */
  function EscapeChar(c: char): (e: string)
    ensures e == [c] <==> !(c in "&<>\"'\n")
    ensures |e| > 1 ==> e[0] == '&' || e[0] == '<'
  {
    match c
    case '&' => "&amp;"
    case '<' => "&lt;"
    case '>' => "&gt;"
    case '"' => "&quot;"
    case '\'' => "&#039;"
    case '\n' => "<br />"
    case _ => [c]
  }

  function EscapeAll(s: string): string {
    if s == [] then [] else EscapeChar(s[0]) + EscapeAll(s[1..])
  }

  lemma RenderUserMessageAppend(a: string, b: string)
    ensures RenderUserMessage(a + b) == RenderUserMessage(a) + RenderUserMessage(b)
  {
    var a1, b1 := ReplaceChar(a, '&', "&amp;"), ReplaceChar(b, '&', "&amp;");
    ReplaceCharAppend(a, b, '&', "&amp;");
    var a2, b2 := ReplaceChar(a1, '<', "&lt;"), ReplaceChar(b1, '<', "&lt;");
    ReplaceCharAppend(a1, b1, '<', "&lt;");
    var a3, b3 := ReplaceChar(a2, '>', "&gt;"), ReplaceChar(b2, '>', "&gt;");
    ReplaceCharAppend(a2, b2, '>', "&gt;");
    var a4, b4 := ReplaceChar(a3, '"', "&quot;"), ReplaceChar(b3, '"', "&quot;");
    ReplaceCharAppend(a3, b3, '"', "&quot;");
    var a5, b5 := ReplaceChar(a4, '\'', "&#039;"), ReplaceChar(b4, '\'', "&#039;");
    ReplaceCharAppend(a4, b4, '\'', "&#039;");
    ReplaceCharAppend(a5, b5, '\n', "<br />");
  }

  lemma ReplaceCharSingle(c: char, x: char, rep: string)
    ensures ReplaceChar([c], x, rep) == if c == x then rep else [c]
  {
    assert [c][1..] == [];
  }

  /** Text that holds none of the characters replaced from `<` on passes
      through the rest of the chain unchanged; likewise for the shorter
      tails below. */
  lemma PassesFromLt(e: string)
    requires '<' !in e && '>' !in e && '"' !in e && '\'' !in e && '\n' !in e
    ensures ReplaceChar(ReplaceChar(ReplaceChar(ReplaceChar(ReplaceChar(
              e, '<', "&lt;"), '>', "&gt;"), '"', "&quot;"), '\'', "&#039;"), '\n', "<br />") == e
  {
    assert ReplaceChar(e, '<', "&lt;") == e;
    PassesFromGt(e);
  }

  lemma PassesFromGt(e: string)
    requires '>' !in e && '"' !in e && '\'' !in e && '\n' !in e
    ensures ReplaceChar(ReplaceChar(ReplaceChar(ReplaceChar(
              e, '>', "&gt;"), '"', "&quot;"), '\'', "&#039;"), '\n', "<br />") == e
  {
    assert ReplaceChar(e, '>', "&gt;") == e;
    PassesFromQuot(e);
  }

  lemma PassesFromQuot(e: string)
    requires '"' !in e && '\'' !in e && '\n' !in e
    ensures ReplaceChar(ReplaceChar(ReplaceChar(e, '"', "&quot;"), '\'', "&#039;"), '\n', "<br />") == e
  {
    assert ReplaceChar(e, '"', "&quot;") == e;
    PassesFromApos(e);
  }

  lemma PassesFromApos(e: string)
    requires '\'' !in e && '\n' !in e
    ensures ReplaceChar(ReplaceChar(e, '\'', "&#039;"), '\n', "<br />") == e
  {
    assert ReplaceChar(e, '\'', "&#039;") == e;
  }

  lemma AfterAmp(c: char)
    requires c == '&'
    ensures RenderUserMessage([c]) == EscapeChar(c)
  {
    ReplaceCharSingle(c, '&', "&amp;");
    PassesFromLt("&amp;");
  }

  lemma AfterLt(c: char)
    requires c == '<'
    ensures RenderUserMessage([c]) == EscapeChar(c)
  {
    ReplaceCharSingle(c, '&', "&amp;");
    ReplaceCharSingle(c, '<', "&lt;");
    PassesFromGt("&lt;");
  }

  lemma AfterGt(c: char)
    requires c == '>'
    ensures RenderUserMessage([c]) == EscapeChar(c)
  {
    ReplaceCharSingle(c, '&', "&amp;");
    ReplaceCharSingle(c, '<', "&lt;");
    ReplaceCharSingle(c, '>', "&gt;");
    PassesFromQuot("&gt;");
  }

  lemma AfterQuot(c: char)
    requires c == '"'
    ensures RenderUserMessage([c]) == EscapeChar(c)
  {
    ReplaceCharSingle(c, '&', "&amp;");
    ReplaceCharSingle(c, '<', "&lt;");
    ReplaceCharSingle(c, '>', "&gt;");
    ReplaceCharSingle(c, '"', "&quot;");
    PassesFromApos("&quot;");
  }

  lemma AfterApos(c: char)
    requires c == '\''
    ensures RenderUserMessage([c]) == EscapeChar(c)
  {
    ReplaceCharSingle(c, '&', "&amp;");
    ReplaceCharSingle(c, '<', "&lt;");
    ReplaceCharSingle(c, '>', "&gt;");
    ReplaceCharSingle(c, '"', "&quot;");
    ReplaceCharSingle(c, '\'', "&#039;");
    assert ReplaceChar("&#039;", '\n', "<br />") == "&#039;";
  }

  lemma OtherChar(c: char)
    requires c != '&' && c != '<' && c != '>' && c != '"' && c != '\''
    ensures RenderUserMessage([c]) == ReplaceChar([c], '\n', "<br />")
  {
    ReplaceCharSingle(c, '&', "&amp;");
    ReplaceCharSingle(c, '<', "&lt;");
    ReplaceCharSingle(c, '>', "&gt;");
    ReplaceCharSingle(c, '"', "&quot;");
    ReplaceCharSingle(c, '\'', "&#039;");
  }

  lemma RenderUserMessageChar(c: char)
    ensures RenderUserMessage([c]) == EscapeChar(c)
  {
    if c == '&' { AfterAmp(c); }
    else if c == '<' { AfterLt(c); }
    else if c == '>' { AfterGt(c); }
    else if c == '"' { AfterQuot(c); }
    else if c == '\'' { AfterApos(c); }
    else {
      OtherChar(c);
      ReplaceCharSingle(c, '\n', "<br />");
    }
  }

  /** Because `&` is replaced first, the chained replacements never escape
      an entity produced by a later step: the chain is exactly the
      character-by-character escaping. */
  lemma {:induction false} RenderUserMessageIsPerChar(s: string)
    ensures RenderUserMessage(s) == EscapeAll(s)
  {
    if s != [] {
      assert s == [s[0]] + s[1..];
      RenderUserMessageAppend([s[0]], s[1..]);
      RenderUserMessageChar(s[0]);
      RenderUserMessageIsPerChar(s[1..]);
    }
  }

  /** Decoding of the five entities and of `<br />`, the inverse of the
      escaping. */
  function Unescape(r: string): (s: string)
    ensures |s| <= |r|
    decreases |r|
  {
    if r == [] then []
    else if StartsWith(r, "&amp;") then "&" + Unescape(r[5..])
    else if StartsWith(r, "&lt;") then "<" + Unescape(r[4..])
    else if StartsWith(r, "&gt;") then ">" + Unescape(r[4..])
    else if StartsWith(r, "&quot;") then "\"" + Unescape(r[6..])
    else if StartsWith(r, "&#039;") then "'" + Unescape(r[6..])
    else if StartsWith(r, "<br />") then "\n" + Unescape(r[6..])
    else [r[0]] + Unescape(r[1..])
  }

  lemma UnescapeEntity(e: string, c: char, rest: string)
    requires e == EscapeChar(c) && |e| > 1
    ensures Unescape(e + rest) == [c] + Unescape(rest)
  {
    var r := e + rest;
    assert r[..|e|] == e && r[|e|..] == rest;
    assert r[0] == e[0] && r[1] == e[1];
    if c == '&' {
      assert StartsWith(r, "&amp;");
    } else if c == '<' {
      assert !StartsWith(r, "&amp;") && StartsWith(r, "&lt;");
    } else if c == '>' {
      assert !StartsWith(r, "&amp;") && !StartsWith(r, "&lt;") && StartsWith(r, "&gt;");
    } else if c == '"' {
      assert !StartsWith(r, "&amp;") && !StartsWith(r, "&lt;") && !StartsWith(r, "&gt;");
      assert StartsWith(r, "&quot;");
    } else if c == '\'' {
      assert !StartsWith(r, "&amp;") && !StartsWith(r, "&lt;") && !StartsWith(r, "&gt;");
      assert !StartsWith(r, "&quot;") && StartsWith(r, "&#039;");
    } else {
      assert c == '\n';
      assert r[0] == '<';
      assert StartsWith(r, "<br />");
    }
  }

  lemma UnescapePlain(c: char, rest: string)
    requires c != '&' && c != '<'
    ensures Unescape([c] + rest) == [c] + Unescape(rest)
  {
    var r := [c] + rest;
    assert r[0] == c && r[1..] == rest;
    assert !StartsWith(r, "&amp;") && !StartsWith(r, "&lt;") && !StartsWith(r, "&gt;");
    assert !StartsWith(r, "&quot;") && !StartsWith(r, "&#039;") && !StartsWith(r, "<br />");
  }

  lemma UnescapeChar(c: char, rest: string)
    ensures Unescape(EscapeChar(c) + rest) == [c] + Unescape(rest)
  {
    var e := EscapeChar(c);
    if |e| > 1 {
      UnescapeEntity(e, c, rest);
    } else {
      UnescapePlain(c, rest);
    }
  }

  lemma {:induction false} UnescapeEscapeAll(s: string)
    ensures Unescape(EscapeAll(s)) == s
  {
    if s != [] {
      UnescapeChar(s[0], EscapeAll(s[1..]));
      UnescapeEscapeAll(s[1..]);
    }
  }

  /** The user's text is recovered exactly from the rendered HTML. */
  lemma UnescapeRenderUserMessage(s: string)
    ensures Unescape(RenderUserMessage(s)) == s
  {
    RenderUserMessageIsPerChar(s);
    UnescapeEscapeAll(s);
  }

  /** Number of occurrences of `c` in `s`. */
  function Count(s: string, c: char): (n: nat)
    ensures n == 0 <==> c !in s
  {
    if s == [] then 0 else (if s[0] == c then 1 else 0) + Count(s[1..], c)
  }

  lemma {:induction false} CountAppend(a: string, b: string, c: char)
    ensures Count(a + b, c) == Count(a, c) + Count(b, c)
  {
    if a == [] {
      assert a + b == b;
    } else {
      assert (a + b)[0] == a[0] && (a + b)[1..] == a[1..] + b;
      CountAppend(a[1..], b, c);
    }
  }

  /** The line-break tag holds one `<` and one `>`. */
  lemma CountBreakTag()
    ensures Count("<br />", '<') == 1 && Count("<br />", '>') == 1
  {
    CountAppend("<", "br />", '<');
    CountAppend("<br /", ">", '>');
    assert "<" + "br />" == "<br />";
    assert "<br /" + ">" == "<br />";
  }

  /** No escape holds a quote. */
  lemma EscapeQuoteFree(x: char)
    ensures '"' !in EscapeChar(x) && '\'' !in EscapeChar(x)
  {
  }

  /** Only the escape of a newline holds angle brackets. */
  lemma EscapeAngleFree(x: char)
    requires x != '\n'
    ensures '<' !in EscapeChar(x) && '>' !in EscapeChar(x)
  {
  }

  lemma CountEscapeChar(x: char)
    ensures Count(EscapeChar(x), '<') == (if x == '\n' then 1 else 0)
    ensures Count(EscapeChar(x), '>') == (if x == '\n' then 1 else 0)
    ensures Count(EscapeChar(x), '"') == 0 && Count(EscapeChar(x), '\'') == 0
  {
    EscapeQuoteFree(x);
    if x == '\n' {
      CountBreakTag();
    } else {
      EscapeAngleFree(x);
    }
  }

  lemma {:induction false} EscapeAllCounts(s: string)
    ensures Count(EscapeAll(s), '<') == Count(s, '\n')
    ensures Count(EscapeAll(s), '>') == Count(s, '\n')
    ensures Count(EscapeAll(s), '"') == 0 && Count(EscapeAll(s), '\'') == 0
  {
    if s != [] {
      EscapeAllCounts(s[1..]);
      CountEscapeChar(s[0]);
      CountAppend(EscapeChar(s[0]), EscapeAll(s[1..]), '<');
      CountAppend(EscapeChar(s[0]), EscapeAll(s[1..]), '>');
      CountAppend(EscapeChar(s[0]), EscapeAll(s[1..]), '"');
      CountAppend(EscapeChar(s[0]), EscapeAll(s[1..]), '\'');
    }
  }

  /** Apart from the `<br />` tags, one per line feed of the input, the
      rendered text holds no raw `<` or `>`, and it holds no quote at all. */
  lemma RenderUserMessageMarkup(s: string)
    ensures Count(RenderUserMessage(s), '<') == Count(s, '\n')
    ensures Count(RenderUserMessage(s), '>') == Count(s, '\n')
    ensures Count(RenderUserMessage(s), '"') == 0 && Count(RenderUserMessage(s), '\'') == 0
  {
    RenderUserMessageIsPerChar(s);
    EscapeAllCounts(s);
  }
}

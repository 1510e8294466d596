/** `renderMarkdown`: the line-by-line conversion of the generator's markdown
    into HTML, with headings, bullet lists, paragraphs and bold spans. */
module Markdown {
  import opened Types
  import opened Text

  // ---------------------------------------------------------------------
  // Splitting into lines: `text.split('\n')`
  // ---------------------------------------------------------------------

  function SplitLines(s: string): (lines: seq<string>)
    ensures |lines| >= 1
    ensures forall i :: 0 <= i < |lines| ==> '\n' !in lines[i]
  {
    if s == [] then [""]
    else
      var rest := SplitLines(s[1..]);
      if s[0] == '\n' then [""] + rest
      else [[s[0]] + rest[0]] + rest[1..]
  }

  /** `lines.join('\n')`, the inverse of the split. */
  function JoinLines(lines: seq<string>): string
    requires |lines| >= 1
  {
    if |lines| == 1 then lines[0] else lines[0] + "\n" + JoinLines(lines[1..])
  }

  lemma {:induction false} JoinSplitLines(s: string)
    ensures JoinLines(SplitLines(s)) == s
  {
    if s != [] {
      var rest := SplitLines(s[1..]);
      JoinSplitLines(s[1..]);
      if s[0] == '\n' {
        assert SplitLines(s) == [""] + rest;
        assert ([""] + rest)[1..] == rest;
        assert s == "" + "\n" + s[1..];
      } else {
        var lines := SplitLines(s);
        assert lines == [[s[0]] + rest[0]] + rest[1..];
        if |rest| == 1 {
          assert JoinLines(lines) == [s[0]] + rest[0];
        } else {
          assert lines[1..] == rest[1..];
          assert JoinLines(rest) == rest[0] + "\n" + JoinLines(rest[1..]);
          assert JoinLines(lines) == [s[0]] + rest[0] + "\n" + JoinLines(rest[1..]);
        }
        assert s == [s[0]] + s[1..];
      }
    }
  }

  // ---------------------------------------------------------------------
  // Inline formatting: `str.replace(/\*\*(.*?)\*\*/g, '<strong>$1</strong>')`
  // ---------------------------------------------------------------------

  /** Characters the regular-expression `.` does not match. */
  predicate IsLineTerminator(c: char) {
    c == '\n' || c == '\r' || c == '\U{2028}' || c == '\U{2029}'
  }

  predicate StarsAt(s: string, j: int) {
    0 <= j && j + 2 <= |s| && s[j] == '*' && s[j + 1] == '*'
  }

  /** Where the lazy `(.*?)\*\*` that starts at `k` ends: the first `**` at
      or after `k`, provided no line terminator comes before it. */
  function CloseAt(s: string, k: nat): (r: Option<nat>)
    requires k <= |s|
    ensures r.Some? ==> k <= r.value && StarsAt(s, r.value)
    ensures r.Some? ==> forall j :: k <= j < r.value ==> !StarsAt(s, j) && !IsLineTerminator(s[j])
    ensures r.None? ==> forall j :: k <= j && StarsAt(s, j) ==>
                          exists t :: k <= t < j && IsLineTerminator(s[t])
    decreases |s| - k
  {
    if k + 2 > |s| then None
    else if s[k] == '*' && s[k + 1] == '*' then Some(k)
    else if IsLineTerminator(s[k]) then None
    else CloseAt(s, k + 1)
  }

  /** Global replacement of `**bold**` spans by `<strong>` elements. */
  function Inline(s: string): (r: string)
    ensures (forall j :: !StarsAt(s, j)) ==> r == s
    decreases |s|
  {
    if |s| < 2 then s
    else if s[0] == '*' && s[1] == '*' then
      match CloseAt(s, 2)
      case Some(j) => "<strong>" + s[2..j] + "</strong>" + Inline(s[j + 2..])
      case None => assert StarsAt(s, 0); [s[0]] + Inline(s[1..])
    else
      assert forall j :: StarsAt(s[1..], j) ==> StarsAt(s, j + 1);
      [s[0]] + Inline(s[1..])
  }

  /** A bold span whose text holds no `**`, no line break and does not end
      in `*` becomes one `<strong>` element. */
  lemma BoldSpan(x: string)
    requires forall j :: !StarsAt(x, j)
    requires forall j :: 0 <= j < |x| ==> !IsLineTerminator(x[j])
    requires x != [] ==> x[|x| - 1] != '*'
    ensures Inline("**" + x + "**") == "<strong>" + x + "</strong>"
  {
    var s := "**" + x + "**";
    BoldSpanCloses(x, s);
    BoldSpanSlices(x, s);
    InlineWhole(s, x, |x| + 2);
  }

  /** The parts of `**x**` the rendering takes apart. */
  lemma BoldSpanSlices(x: string, s: string)
    requires s == "**" + x + "**"
    ensures |s| == |x| + 4 && s[0] == '*' && s[1] == '*'
    ensures s[2..|x| + 2] == x && s[|x| + 4..] == []
  {
  }

  /** A span that closes at the very end is rendered as one element. */
  lemma InlineWhole(s: string, x: string, k: nat)
    requires |s| >= 2 && s[0] == '*' && s[1] == '*'
    requires CloseAt(s, 2) == Some(k)
    requires k + 2 <= |s| && s[2..k] == x && s[k + 2..] == []
    ensures Inline(s) == "<strong>" + x + "</strong>"
  {
    InlineOpens(s, k);
    assert Inline(s[k + 2..]) == [];
  }

  /** An opening `**` whose closing one is found at `k` becomes an element. */
  lemma InlineOpens(s: string, k: nat)
    requires |s| >= 2 && s[0] == '*' && s[1] == '*'
    requires CloseAt(s, 2) == Some(k)
    requires k + 2 <= |s|
    ensures Inline(s) == "<strong>" + s[2..k] + "</strong>" + Inline(s[k + 2..])
  {
  }

  /** The scan after an opening `**` finds the closing one right after `x`. */
  lemma BoldSpanCloses(x: string, s: string)
    requires forall j :: !StarsAt(x, j)
    requires forall j :: 0 <= j < |x| ==> !IsLineTerminator(x[j])
    requires x != [] ==> x[|x| - 1] != '*'
    requires s == "**" + x + "**"
    ensures CloseAt(s, 2) == Some(|x| + 2)
  {
    var k := |x| + 2;
    assert StarsAt(s, k);
    forall j | 2 <= j < k ensures !StarsAt(s, j) && !IsLineTerminator(s[j]) {
      assert s[j] == x[j - 2];
      if j + 1 < k {
        assert s[j + 1] == x[j - 1];
        assert !StarsAt(x, j - 2);
      }
    }
    CloseAtFinds(s, 2, k);
  }

  /** The scan from `k` stops at the first `**` when no line break comes first. */
  lemma {:induction false} CloseAtFinds(s: string, k: nat, e: nat)
    requires k <= e && StarsAt(s, e)
    requires forall j :: k <= j < e ==> !StarsAt(s, j) && !IsLineTerminator(s[j])
    ensures CloseAt(s, k) == Some(e)
    decreases e - k
  {
    if k < e {
      assert !StarsAt(s, k) && !IsLineTerminator(s[k]);
      CloseAtFinds(s, k + 1, e);
    }
  }

  // ---------------------------------------------------------------------
  // The pieces of HTML the renderer emits
  // ---------------------------------------------------------------------

  datatype Piece =
    | OpenList             // <ul>
    | CloseList            // </ul>
    | Heading(inner: string)
    | Item(inner: string)
    | Para(inner: string)

  function PieceHtml(p: Piece): string {
    match p
    case OpenList => "<ul>"
    case CloseList => "</ul>"
    case Heading(inner) => "<h2>" + inner + "</h2>"
    case Item(inner) => "<li>" + inner + "</li>"
    case Para(inner) => "<p>" + inner + "</p>"
  }

  function Html(ps: seq<Piece>): string {
    if ps == [] then "" else PieceHtml(ps[0]) + Html(ps[1..])
  }

  lemma {:induction false} HtmlAppend(ps: seq<Piece>, qs: seq<Piece>)
    ensures Html(ps + qs) == Html(ps) + Html(qs)
  {
    if ps == [] {
      assert ps + qs == qs;
    } else {
      assert (ps + qs)[0] == ps[0] && (ps + qs)[1..] == ps[1..] + qs;
      HtmlAppend(ps[1..], qs);
    }
  }

  predicate IsHeadingLine(line: string) { StartsWith(line, "## ") }
  predicate IsItemLine(line: string) { StartsWith(line, "* ") }

  /** The content block a single line yields, if any: a heading, a list
      item, a paragraph, or nothing for a blank line. */
  function LineBlock(line: string): (r: seq<Piece>)
    ensures |r| <= 1
    ensures r == [] <==> !IsHeadingLine(line) && !IsItemLine(line) && IsBlank(line)
    ensures forall p :: p in r ==> !p.OpenList? && !p.CloseList?
  {
    if IsHeadingLine(line) then [Heading(Inline(line[3..]))]
    else if IsItemLine(line) then [Item(Inline(line[2..]))]
    else if IsBlank(line) then []
    else [Para(Inline(line))]
  }

  /** Whether the list is open after `line`: exactly after an item line. */
  predicate OpensOrKeepsList(line: string) {
    IsItemLine(line) && !IsHeadingLine(line)
  }

  /** One iteration of the loop, stated as list bookkeeping around the line's
      block: the pieces emitted for `line` and the new `inList` flag. A list
      is closed when leaving it and opened when entering it. */
  function Step(inList: bool, line: string): (r: (seq<Piece>, bool))
    ensures r.1 == OpensOrKeepsList(line)
    ensures |LineBlock(line)| <= |r.0| <= |LineBlock(line)| + 1
    ensures r.0[|r.0| - |LineBlock(line)|..] == LineBlock(line)
  {
    var nowIn := OpensOrKeepsList(line);
    ((if inList && !nowIn then [CloseList] else [])
     + (if !inList && nowIn then [OpenList] else [])
     + LineBlock(line),
     nowIn)
  }

  /** The loop over a prefix of the lines: pieces emitted so far and the
      `inList` flag. */
  function Run(lines: seq<string>): (r: (seq<Piece>, bool))
    ensures |r.0| <= 2 * |lines|
    ensures r.1 <==> lines != [] && OpensOrKeepsList(lines[|lines| - 1])
  {
    if lines == [] then ([], false)
    else
      var prev := Run(lines[..|lines| - 1]);
      var step := Step(prev.1, lines[|lines| - 1]);
      (prev.0 + step.0, step.1)
  }

  function CloseOpen(inList: bool): seq<Piece> {
    if inList then [CloseList] else []
  }

  /** Every piece `renderMarkdown(text)` emits, in order. */
  function Pieces(text: string): (r: seq<Piece>)
    ensures |r| <= 2 * |SplitLines(text)| + 1
    ensures Run(SplitLines(text)).1 ==> r != [] && r[|r| - 1] == CloseList
  {
    var run := Run(SplitLines(text));
    run.0 + CloseOpen(run.1)
  }

  lemma RunSnoc(lines: seq<string>, i: nat)
    requires i < |lines|
    ensures Run(lines[..i + 1]).0 == Run(lines[..i]).0 + Step(Run(lines[..i]).1, lines[i]).0
    ensures Run(lines[..i + 1]).1 == Step(Run(lines[..i]).1, lines[i]).1
  {
    assert lines[..i + 1][..i] == lines[..i];
  }

  lemma HtmlOne(a: Piece)
    ensures Html([a]) == PieceHtml(a)
  {
    assert [a][1..] == [];
  }

  /** The HTML of an optional list marker followed by at most one block. */
  lemma HtmlOptional(b: bool, mark: Piece, block: seq<Piece>)
    requires |block| <= 1
    ensures Html((if b then [mark] else []) + block)
            == (if b then PieceHtml(mark) else "") + (if block == [] then "" else PieceHtml(block[0]))
  {
    var marks: seq<Piece> := if b then [mark] else [];
    HtmlAppend(marks, block);
    if b { HtmlOne(mark); }
    if block != [] { HtmlOne(block[0]); assert block == [block[0]]; }
  }

  lemma HtmlTwo(a: Piece, b: Piece)
    ensures Html([a, b]) == PieceHtml(a) + PieceHtml(b)
  {
    assert [a, b][1..] == [b];
    HtmlOne(b);
  }

  // The three branches of the loop body, read off the specification.

  lemma StepHeading(inList: bool, line: string)
    requires IsHeadingLine(line)
    ensures !Step(inList, line).1
    ensures Html(Step(inList, line).0)
            == (if inList then "</ul>" else "") + ("<h2>" + Inline(line[3..]) + "</h2>")
  {
    var empty: seq<Piece> := [];
    assert CloseOpen(inList) + empty == CloseOpen(inList);
    HtmlOptional(inList, CloseList, [Heading(Inline(line[3..]))]);
  }

  lemma StepItem(inList: bool, line: string)
    requires !IsHeadingLine(line) && IsItemLine(line)
    ensures Step(inList, line).1
    ensures Html(Step(inList, line).0)
            == (if inList then "" else "<ul>") + ("<li>" + Inline(line[2..]) + "</li>")
  {
    var empty: seq<Piece> := [];
    assert empty + (if inList then [] else [OpenList]) == (if inList then [] else [OpenList]);
    HtmlOptional(!inList, OpenList, [Item(Inline(line[2..]))]);
  }

  lemma StepOther(inList: bool, line: string)
    requires !IsHeadingLine(line) && !IsItemLine(line)
    ensures !Step(inList, line).1
    ensures Html(Step(inList, line).0)
            == (if inList then "</ul>" else "") + (if IsBlank(line) then "" else "<p>" + Inline(line) + "</p>")
  {
    var empty: seq<Piece> := [];
    assert CloseOpen(inList) + empty == CloseOpen(inList);
    HtmlOptional(inList, CloseList, if IsBlank(line) then [] else [Para(Inline(line))]);
  }

  /** The text one iteration appends, branch by branch. */
  function BranchHtml(inList: bool, line: string): string {
    if IsHeadingLine(line) then
      (if inList then "</ul>" else "") + ("<h2>" + Inline(line[3..]) + "</h2>")
    else if IsItemLine(line) then
      (if inList then "" else "<ul>") + ("<li>" + Inline(line[2..]) + "</li>")
    else
      (if inList then "</ul>" else "") + (if IsBlank(line) then "" else "<p>" + Inline(line) + "</p>")
  }

  lemma BranchHtmlIsStep(inList: bool, line: string)
    ensures Html(Step(inList, line).0) == BranchHtml(inList, line)
    ensures Step(inList, line).1 == OpensOrKeepsList(line)
  {
    if IsHeadingLine(line) {
      StepHeading(inList, line);
    } else if IsItemLine(line) {
      StepItem(inList, line);
    } else {
      StepOther(inList, line);
    }
  }

  /** `html` after one iteration, in the order the source appends. */
  function Emitted(html: string, inList: bool, line: string): string {
    if IsHeadingLine(line) then
      (if inList then html + "</ul>" else html) + "<h2>" + Inline(line[3..]) + "</h2>"
    else if IsItemLine(line) then
      (if inList then html else html + "<ul>") + "<li>" + Inline(line[2..]) + "</li>"
    else
      var closed := if inList then html + "</ul>" else html;
      if IsBlank(line) then closed else closed + "<p>" + Inline(line) + "</p>"
  }

  /** Regrouping the appends of one iteration. */
  lemma Regroup(h: string, pre: string, open: string, x: string, close: string)
    ensures h + pre + open + x + close == h + (pre + (open + x + close))
  {
  }

  lemma EmptyUnit(s: string)
    ensures "" + s == s && s + "" == s
  {
  }

  lemma EmittedAppendsHeading(html: string, inList: bool, line: string)
    requires IsHeadingLine(line)
    ensures Emitted(html, inList, line) == html + BranchHtml(inList, line)
  {
    var pre := if inList then "</ul>" else "";
    Regroup(html, pre, "<h2>", Inline(line[3..]), "</h2>");
    EmptyUnit(html);
  }

  lemma EmittedAppendsItem(html: string, inList: bool, line: string)
    requires !IsHeadingLine(line) && IsItemLine(line)
    ensures Emitted(html, inList, line) == html + BranchHtml(inList, line)
  {
    var pre := if inList then "" else "<ul>";
    Regroup(html, pre, "<li>", Inline(line[2..]), "</li>");
    EmptyUnit(html);
  }

  lemma EmittedAppendsOther(html: string, inList: bool, line: string)
    requires !IsHeadingLine(line) && !IsItemLine(line)
    ensures Emitted(html, inList, line) == html + BranchHtml(inList, line)
  {
    var pre := if inList then "</ul>" else "";
    if IsBlank(line) {
      EmptyUnit(pre);
      EmptyUnit(html);
    } else {
      Regroup(html, pre, "<p>", Inline(line), "</p>");
      EmptyUnit(html);
    }
  }

  lemma EmittedAppends(html: string, inList: bool, line: string)
    ensures Emitted(html, inList, line) == html + BranchHtml(inList, line)
  {
    if IsHeadingLine(line) {
      EmittedAppendsHeading(html, inList, line);
    } else if IsItemLine(line) {
      EmittedAppendsItem(html, inList, line);
    } else {
      EmittedAppendsOther(html, inList, line);
    }
  }

  /** The body of the loop for one line: the branches of the source, with
      the list closed or opened as the line demands. It appends exactly the
      HTML of the pieces `Step` emits. */
  method EmitLine(html: string, inList: bool, line: string) returns (html': string, inList': bool)
    ensures html' == html + Html(Step(inList, line).0)
    ensures inList' == Step(inList, line).1
  {
    html', inList' := html, inList;
    if StartsWith(line, "## ") {
      if inList' {
        html' := html' + "</ul>";
        inList' := false;
      }
      html' := html' + "<h2>" + Inline(line[3..]) + "</h2>";
    } else if StartsWith(line, "* ") {
      if !inList' {
        html' := html' + "<ul>";
        inList' := true;
      }
      html' := html' + "<li>" + Inline(line[2..]) + "</li>";
    } else {
      if inList' {
        html' := html' + "</ul>";
        inList' := false;
      }
      if !IsBlank(line) {
        html' := html' + "<p>" + Inline(line) + "</p>";
      }
    }
    assert html' == Emitted(html, inList, line);
    EmittedAppends(html, inList, line);
    BranchHtmlIsStep(inList, line);
  }

  /** One more line adds the HTML of its step to the HTML of the prefix. */
  lemma RunHtmlSnoc(lines: seq<string>, i: nat)
    requires i < |lines|
    ensures Html(Run(lines[..i + 1]).0) == Html(Run(lines[..i]).0) + Html(Step(Run(lines[..i]).1, lines[i]).0)
    ensures Run(lines[..i + 1]).1 == Step(Run(lines[..i]).1, lines[i]).1
  {
    RunSnoc(lines, i);
    HtmlAppend(Run(lines[..i]).0, Step(Run(lines[..i]).1, lines[i]).0);
  }

  /** The whole output: the HTML of the run, then `</ul>` if a list is open. */
  lemma PiecesHtml(text: string)
    ensures Html(Pieces(text))
         == Html(Run(SplitLines(text)).0) + (if Run(SplitLines(text)).1 then "</ul>" else "")
  {
    var run := Run(SplitLines(text));
    HtmlAppend(run.0, CloseOpen(run.1));
    if run.1 {
      HtmlOne(CloseList);
    }
  }

  /** `renderMarkdown`: the loop of the source over the lines, appending to
      `html` and toggling `inList`. */
  method RenderMarkdown(text: string) returns (html: string)
    ensures html == Html(Pieces(text))
  {
    var lines := SplitLines(text);
    html := "";
    var inList := false;
    var i := 0;
    while i < |lines|
      invariant 0 <= i <= |lines|
      invariant html == Html(Run(lines[..i]).0)
      invariant inList == Run(lines[..i]).1
    {
      html, inList := EmitLine(html, inList, lines[i]);
      RunHtmlSnoc(lines, i);
      i := i + 1;
    }
    assert lines[..|lines|] == lines;
    if inList {
      html := html + "</ul>";
    }
    PiecesHtml(text);
  }

  // ---------------------------------------------------------------------
  // Properties
  // ---------------------------------------------------------------------

  /** Replays the pieces against the list state: a `<ul>` only outside a
      list, a `</ul>` only inside one, items only inside, headings and
      paragraphs only outside. `None` when one of those is broken, else the
      final state. */
  function Nest(ps: seq<Piece>, open: bool): Option<bool> {
    if ps == [] then Some(open)
    else match ps[0]
      case OpenList => if open then None else Nest(ps[1..], true)
      case CloseList => if open then Nest(ps[1..], false) else None
      case Item(_) => if open then Nest(ps[1..], true) else None
      case _ => if open then None else Nest(ps[1..], false)
  }

  /** Lists never nest, every `<ul>` is closed by exactly one `</ul>`, and
      items appear only inside a list. */
  predicate WellNested(ps: seq<Piece>) {
    Nest(ps, false) == Some(false)
  }

  lemma {:induction false} NestAppend(ps: seq<Piece>, qs: seq<Piece>, open: bool)
    ensures Nest(ps + qs, open) ==
      match Nest(ps, open)
      case None => None
      case Some(o) => Nest(qs, o)
  {
    if ps == [] {
      assert ps + qs == qs;
    } else {
      assert (ps + qs)[0] == ps[0] && (ps + qs)[1..] == ps[1..] + qs;
      match ps[0]
      case OpenList => NestAppend(ps[1..], qs, true);
      case CloseList => NestAppend(ps[1..], qs, false);
      case Item(_) => NestAppend(ps[1..], qs, true);
      case Heading(_) => NestAppend(ps[1..], qs, false);
      case Para(_) => NestAppend(ps[1..], qs, false);
    }
  }

  lemma StepNest(inList: bool, line: string)
    ensures Nest(Step(inList, line).0, inList) == Some(Step(inList, line).1)
  {
    var step := Step(inList, line);
    var b := LineBlock(line);
    var marks := (if inList && !step.1 then [CloseList] else [])
                 + (if !inList && step.1 then [OpenList] else []);
    assert step.0 == marks + b;
    NestAppend(marks, b, inList);
    assert Nest(marks, inList) == Some(step.1) by {
      if marks != [] { assert marks[1..] == []; }
    }
    if b != [] { assert b[1..] == []; }
  }

  lemma {:induction false} RunNest(lines: seq<string>)
    ensures Nest(Run(lines).0, false) == Some(Run(lines).1)
  {
    if lines != [] {
      var init := lines[..|lines| - 1];
      RunNest(init);
      var prev := Run(init);
      var step := Step(prev.1, lines[|lines| - 1]);
      NestAppend(prev.0, step.0, false);
      StepNest(prev.1, lines[|lines| - 1]);
    }
  }

  /** Every `<ul>` `renderMarkdown` opens is closed by exactly one `</ul>`,
      lists never nest, and no item stands outside a list. */
  lemma MarkdownWellNested(text: string)
    ensures WellNested(Pieces(text))
  {
    var run := Run(SplitLines(text));
    RunNest(SplitLines(text));
    NestAppend(run.0, CloseOpen(run.1), false);
  }

  /** The content blocks among the pieces (list markers dropped). */
  function Blocks(ps: seq<Piece>): seq<Piece> {
    if ps == [] then []
    else (if ps[0].OpenList? || ps[0].CloseList? then [] else [ps[0]]) + Blocks(ps[1..])
  }

  lemma {:induction false} BlocksAppend(ps: seq<Piece>, qs: seq<Piece>)
    ensures Blocks(ps + qs) == Blocks(ps) + Blocks(qs)
  {
    if ps == [] {
      assert ps + qs == qs;
    } else {
      var head := if ps[0].OpenList? || ps[0].CloseList? then [] else [ps[0]];
      assert (ps + qs)[0] == ps[0] && (ps + qs)[1..] == ps[1..] + qs;
      assert Blocks(ps + qs) == head + Blocks(ps[1..] + qs);
      BlocksAppend(ps[1..], qs);
      assert Blocks(ps) == head + Blocks(ps[1..]);
    }
  }

  /** The blocks the lines should yield, one per non-blank line, in order. */
  function LineBlocks(lines: seq<string>): seq<Piece> {
    if lines == [] then []
    else LineBlocks(lines[..|lines| - 1]) + LineBlock(lines[|lines| - 1])
  }

  lemma StepBlocks(inList: bool, line: string)
    ensures Blocks(Step(inList, line).0) == LineBlock(line)
  {
    var ps := Step(inList, line).0;
    var marks := (if inList && !Step(inList, line).1 then [CloseList] else [])
                 + (if !inList && Step(inList, line).1 then [OpenList] else []);
    BlocksAppend(marks, LineBlock(line));
    assert Blocks(marks) == [];
    var b := LineBlock(line);
    assert Blocks(b) == b by {
      if b != [] { assert b[1..] == []; }
    }
  }

  lemma {:induction false} RunBlocks(lines: seq<string>)
    ensures Blocks(Run(lines).0) == LineBlocks(lines)
  {
    if lines != [] {
      var init := lines[..|lines| - 1];
      RunBlocks(init);
      var prev := Run(init);
      BlocksAppend(prev.0, Step(prev.1, lines[|lines| - 1]).0);
      StepBlocks(prev.1, lines[|lines| - 1]);
    }
  }

  /** Each `## ` line yields one `<h2>`, each `* ` line one `<li>`, each
      other non-blank line one `<p>`, in the order of the lines; blank lines
      yield no block. */
  lemma MarkdownBlocks(text: string)
    ensures Blocks(Pieces(text)) == LineBlocks(SplitLines(text))
  {
    var run := Run(SplitLines(text));
    RunBlocks(SplitLines(text));
    BlocksAppend(run.0, CloseOpen(run.1));
  }

  /** A blank line closes a list that is open and emits nothing else. */
  lemma BlankLineClosesList(inList: bool, line: string)
    requires IsBlank(line)
    ensures Step(inList, line) == (CloseOpen(inList), false)
  {
    if |line| > 0 {
      assert IsJsWhitespace(line[0]);
      assert !IsHeadingLine(line) by {
        if |line| >= 3 { assert line[..3][0] == line[0]; }
      }
      assert !IsItemLine(line) by {
        if |line| >= 2 { assert line[..2][0] == line[0]; }
      }
    }
    assert LineBlock(line) == [];
    var empty: seq<Piece> := [];
    assert CloseOpen(inList) + empty + empty == CloseOpen(inList);
  }
}

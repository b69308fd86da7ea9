// The Markdown helpers: the blank and URL branches of rendering, the
// Markdown heuristic, escaping of plain text, and the table of contents.
// The CommonMark parser and renderer and the regex rewrites of its HTML
// are not modelled.
module Markdown {
  import opened Wrappers
  import Strings

  predicate IsUrl(s: string)
  {
    Strings.StartsWith(s, "http://") || Strings.StartsWith(s, "https://")
  }

  const UrlOpen := "<div class=\"url-content\"><i class=\"fas fa-external-link-alt me-2\"></i><a "
  const UrlMid := " target=\"_blank\" class=\"external-link"
  const UrlClose := "</div>"

  function Href(url: string): string { "href=\"" + url + "\"" }

  function LinkText(url: string): string { "\">" + url + "</a>" }

  /** The HTML a bare URL is rendered as: a link whose target and text are both the URL. */
  function UrlDiv(url: string): string
  {
    UrlOpen + Href(url) + UrlMid + LinkText(url) + UrlClose
  }

  /** A rendering: HTML produced here, or the text handed to the CommonMark renderer. */
  datatype Rendering = Html(text: string) | Commonmark(source: string)

  /** renderToHtml: "" for null or blank text, the link block for a URL, else CommonMark. */
  function RenderToHtml(markdown: Option<string>): (r: Rendering)
    ensures (markdown.None? || Strings.TrimJava(markdown.value) == "") ==> r == Html("")
    ensures r.Commonmark? ==> markdown.Some? && r.source == markdown.value && !IsUrl(Strings.TrimJava(markdown.value))
  {
    match markdown
    case None => Html("")
    case Some(m) =>
      var t := Strings.TrimJava(m);
      if t == "" then Html("")
      else if IsUrl(t) then Html(UrlDiv(t))
      else Commonmark(m)
  }

  /** A URL is rendered as a link to itself: the trimmed text is both the href and the link text. */
  lemma UrlRenderedAsLink(m: string)
    requires IsUrl(Strings.TrimJava(m))
    ensures RenderToHtml(Some(m)) == Html(UrlDiv(Strings.TrimJava(m)))
    ensures Strings.Contains(UrlDiv(Strings.TrimJava(m)), Href(Strings.TrimJava(m)))
    ensures Strings.Contains(UrlDiv(Strings.TrimJava(m)), LinkText(Strings.TrimJava(m)))
  {
    var t := Strings.TrimJava(m);
    assert t != "" by { assert "http://" <= t || "https://" <= t; }
    var a, b, c, d, e := UrlOpen, Href(t), UrlMid, LinkText(t), UrlClose;
    var h := a + b + c + d + e;
    assert h == UrlDiv(t);
    assert h[|a|..|a| + |b|] == b;
    Strings.ContainsAt(h, b, |a|);
    var k := |a| + |b| + |c|;
    assert h[k..k + |d|] == d;
    Strings.ContainsAt(h, d, k);
  }

  /** The seven markers the heuristic looks for once "**" and "```" are folded into "*" and "`". */
  const Markers: seq<string> := ["#", "*", "`", "- ", "1. ", "[", "|"]

  /** isMarkdown: false for null or blank text, else whether one of the patterns occurs. */
  predicate IsMarkdown(content: Option<string>)
  {
    content.Some? && Strings.TrimJava(content.value) != ""
    && (Strings.Contains(content.value, "#") || Strings.Contains(content.value, "**")
        || Strings.Contains(content.value, "*") || Strings.Contains(content.value, "```")
        || Strings.Contains(content.value, "`") || Strings.Contains(content.value, "- ")
        || Strings.Contains(content.value, "1. ") || Strings.Contains(content.value, "[")
        || Strings.Contains(content.value, "|"))
  }

  /** The "**" and "```" tests add nothing: the heuristic is one of the seven markers. */
  lemma IsMarkdownMarkers(content: Option<string>)
    ensures IsMarkdown(content) <==>
      content.Some? && Strings.TrimJava(content.value) != "" && exists m :: m in Markers && Strings.Contains(content.value, m)
  {
    if content.Some? {
      var s := content.value;
      if Strings.Contains(s, "**") {
        assert "*" + "*" == "**";
        Strings.ContainsPrefixOf(s, "*", "*");
      }
      if Strings.Contains(s, "```") {
        assert "`" + "``" == "```";
        Strings.ContainsPrefixOf(s, "`", "``");
      }
      if Strings.Contains(s, "#") { assert Markers[0] == "#"; }
      if Strings.Contains(s, "*") { assert Markers[1] == "*"; }
      if Strings.Contains(s, "`") { assert Markers[2] == "`"; }
      if Strings.Contains(s, "- ") { assert Markers[3] == "- "; }
      if Strings.Contains(s, "1. ") { assert Markers[4] == "1. "; }
      if Strings.Contains(s, "[") { assert Markers[5] == "["; }
      if Strings.Contains(s, "|") { assert Markers[6] == "|"; }
      if exists m :: m in Markers && Strings.Contains(s, m) {
        var m :| m in Markers && Strings.Contains(s, m);
        assert m == Markers[0] || m == Markers[1] || m == Markers[2] || m == Markers[3]
            || m == Markers[4] || m == Markers[5] || m == Markers[6];
      }
    }
  }

  /** The escape of one character: a backslash doubled, a backtick prefixed with a backslash. */
  function EscapeChar(c: char): string
  {
    if c == '\\' then "\\\\" else if c == '`' then "\\`" else [c]
  }

  function Escape(s: string): string
  {
    if |s| == 0 then "" else EscapeChar(s[0]) + Escape(s[1..])
  }

  /** Reading an escaped text back: a backslash takes the next character literally. */
  function Unescape(t: string): string
    decreases |t|
  {
    if |t| == 0 then ""
    else if t[0] == '\\' && |t| >= 2 then [t[1]] + Unescape(t[2..])
    else [t[0]] + Unescape(t[1..])
  }

  /** The two replace calls of prepareForMarkdown escape character by character. */
  lemma {:induction false} TwoReplacesEscape(s: string)
    ensures Strings.ReplaceChar(Strings.ReplaceChar(s, '\\', "\\\\"), '`', "\\`") == Escape(s)
    decreases |s|
  {
    if |s| > 0 {
      var first := if s[0] == '\\' then "\\\\" else [s[0]];
      var rest := Strings.ReplaceChar(s[1..], '\\', "\\\\");
      assert Strings.ReplaceChar(s, '\\', "\\\\") == first + rest;
      Strings.ReplaceCharAppend(first, rest, '`', "\\`");
      TwoReplacesEscape(s[1..]);
      if s[0] == '\\' {
        assert Strings.ReplaceChar(first, '`', "\\`") == "\\\\";
      } else {
        assert Strings.ReplaceChar(first, '`', "\\`") == EscapeChar(s[0]);
      }
    }
  }

  /** Escaping is undone by reading back, and adds one character per backslash and per backtick. */
  lemma {:induction false} EscapeSpec(s: string)
    ensures Unescape(Escape(s)) == s
    ensures |Escape(s)| == |s| + Strings.CountChar(s, '\\') + Strings.CountChar(s, '`')
    decreases |s|
  {
    if |s| > 0 {
      EscapeSpec(s[1..]);
      var e := Escape(s);
      assert e == EscapeChar(s[0]) + Escape(s[1..]);
      if s[0] == '\\' || s[0] == '`' {
        assert e[0] == '\\' && e[1] == s[0] && e[2..] == Escape(s[1..]);
      } else {
        assert e[0] == s[0] && e[1..] == Escape(s[1..]);
      }
    }
  }

  /** prepareForMarkdown: "" for null, else the text with backslashes and backticks escaped. */
  function PrepareForMarkdown(plainText: Option<string>): (r: string)
    ensures plainText.None? ==> r == ""
    ensures plainText.Some? ==> Unescape(r) == plainText.value
    ensures plainText.Some? ==>
      |r| == |plainText.value| + Strings.CountChar(plainText.value, '\\') + Strings.CountChar(plainText.value, '`')
  {
    match plainText
    case None => ""
    case Some(s) =>
      TwoReplacesEscape(s);
      EscapeSpec(s);
      Strings.ReplaceChar(Strings.ReplaceChar(s, '\\', "\\\\"), '`', "\\`")
  }

  /** The characters the regex class \s matches. */
  predicate IsRegexSpace(c: char)
  {
    c == ' ' || c == '\t' || c == '\n' || c == '\U{B}' || c == '\U{C}' || c == '\r'
  }

  function DropWhileHash(s: string): (r: string)
    ensures |r| <= |s| && r == s[|s| - |r|..]
    ensures |r| > 0 ==> r[0] != '#'
  {
    if |s| > 0 && s[0] == '#' then DropWhileHash(s[1..]) else s
  }

  function DropSpaces(s: string): (r: string)
    ensures |r| <= |s| && r == s[|s| - |r|..]
    ensures |r| > 0 ==> !IsRegexSpace(r[0])
  {
    if |s| > 0 && IsRegexSpace(s[0]) then DropSpaces(s[1..]) else s
  }

  predicate IsHeadingLine(line: string)
  {
    Strings.StartsWith(Strings.TrimJava(line), "#")
  }

  /** The heading text: a leading run of '#' and the white space after it removed, then trimmed. */
  function Heading(line: string): string
  {
    var stripped := if |line| > 0 && line[0] == '#' then DropSpaces(DropWhileHash(line)) else line;
    Strings.TrimJava(stripped)
  }

  predicate AnchorKeeps(c: char)
  {
    ('a' <= c <= 'z') || ('0' <= c <= '9') || IsRegexSpace(c)
  }

  function KeepAnchorChars(s: string): (r: string)
    ensures forall i :: 0 <= i < |r| ==> AnchorKeeps(r[i])
  {
    if |s| == 0 then ""
    else (if AnchorKeeps(s[0]) then [s[0]] else "") + KeepAnchorChars(s[1..])
  }

  /** Every run of white space becomes one '-'. */
  function Dashes(s: string): string
    decreases |s|
  {
    if |s| == 0 then ""
    else if IsRegexSpace(s[0]) then "-" + Dashes(DropSpaces(s))
    else [s[0]] + Dashes(s[1..])
  }

  /** A TOC anchor: lower-cased, only letters, digits and white space kept, white-space runs made '-'. */
  function Anchor(heading: string): string
  {
    Dashes(KeepAnchorChars(Strings.Lower(heading)))
  }

  predicate NoDoubleDash(s: string)
  {
    forall i :: 0 <= i < |s| - 1 ==> !(s[i] == '-' && s[i + 1] == '-')
  }

  predicate AnchorChar(c: char)
  {
    ('a' <= c <= 'z') || ('0' <= c <= '9') || c == '-'
  }

  lemma {:induction false} DashesClean(s: string)
    requires forall i :: 0 <= i < |s| ==> AnchorKeeps(s[i])
    ensures NoDoubleDash(Dashes(s))
    ensures forall i :: 0 <= i < |Dashes(s)| ==> AnchorChar(Dashes(s)[i])
    ensures |s| > 0 && !IsRegexSpace(s[0]) ==> |Dashes(s)| > 0 && Dashes(s)[0] == s[0]
    decreases |s|
  {
    if |s| > 0 {
      if IsRegexSpace(s[0]) {
        var t := DropSpaces(s);
        assert forall i :: 0 <= i < |t| ==> t[i] == s[|s| - |t| + i];
        DashesClean(t);
        var d := Dashes(t);
        assert Dashes(s) == "-" + d;
        assert |d| > 0 ==> d[0] != '-';
      } else {
        var t := s[1..];
        DashesClean(t);
        var d := Dashes(t);
        assert Dashes(s) == [s[0]] + d;
        assert s[0] != '-';
      }
    }
  }

  /** Anchors hold only lower-case letters, digits and single dashes. */
  lemma AnchorClean(heading: string)
    ensures forall i :: 0 <= i < |Anchor(heading)| ==> AnchorChar(Anchor(heading)[i])
    ensures NoDoubleDash(Anchor(heading))
  {
    DashesClean(KeepAnchorChars(Strings.Lower(heading)));
  }

  /** The indent level: the first space's index minus the first '#''s index. */
  function Level(line: string): int
  {
    Strings.IndexOf(line, ' ') - Strings.IndexOf(line, '#')
  }

  function Hashes(k: nat): (r: string)
    ensures |r| == k && forall i :: 0 <= i < k ==> r[i] == '#'
  {
    if k == 0 then "" else "#" + Hashes(k - 1)
  }

  /** A heading written as k '#' marks and a space is at level k. */
  lemma AtxLevel(k: nat, rest: string)
    requires k > 0
    ensures Level(Hashes(k) + " " + rest) == k
  {
    var line := Hashes(k) + " " + rest;
    assert line[k] == ' ' && line[0] == '#';
    assert forall i :: 0 <= i < k ==> line[i] == '#';
  }

  /** Its text is what follows the marks, trimmed. */
  lemma AtxHeading(k: nat, rest: string)
    requires k > 0
    ensures Heading(Hashes(k) + " " + rest) == Strings.TrimJava(DropSpaces(rest))
  {
    var tail := " " + rest;
    var line := Hashes(k) + tail;
    assert Hashes(k) + " " + rest == line;
    MarkedDrop(k, rest);
    HeadingOfMarked(line);
  }

  lemma MarkedDrop(k: nat, rest: string)
    requires k > 0
    ensures DropSpaces(DropWhileHash(Hashes(k) + (" " + rest))) == DropSpaces(rest)
  {
    var tail := " " + rest;
    HashesDropped(k, tail);
    assert tail[1..] == rest;
  }

  lemma HeadingOfMarked(line: string)
    requires |line| > 0 && line[0] == '#'
    ensures Heading(line) == Strings.TrimJava(DropSpaces(DropWhileHash(line)))
  {
  }

  lemma {:induction false} HashesDropped(k: nat, rest: string)
    requires |rest| > 0 && rest[0] != '#'
    ensures DropWhileHash(Hashes(k) + rest) == rest
    decreases k
  {
    if k == 0 {
      assert Hashes(k) + rest == rest;
    } else {
      HashesDropped(k - 1, rest);
      HashStep(k, rest);
    }
  }

  /** One '#' mark in front is dropped first. */
  lemma HashStep(k: nat, rest: string)
    requires k > 0
    ensures DropWhileHash(Hashes(k) + rest) == DropWhileHash(Hashes(k - 1) + rest)
  {
    var s := Hashes(k) + rest;
    assert s == "#" + (Hashes(k - 1) + rest);
    assert s[1..] == Hashes(k - 1) + rest;
  }

  /** An indented heading keeps its marks in the text and is indented to the left. */
  lemma IndentedHeading()
    ensures IsHeadingLine(" # A")
    ensures Heading(" # A") == "# A"
    ensures Level(" # A") == -1
  {
    assert Strings.TrimJava(" # A") == "# A" by {
      assert Strings.TrimJava(" # A") == Strings.TrimJava("# A");
    }
    assert Strings.IndexOf(" # A", '#') == 1;
  }

  function TocItem(line: string): string
  {
    "<li style=\"margin-left: " + Strings.IntToString(Level(line) * 20) + "px;\"><a href=\"#"
    + Anchor(Heading(line)) + "\">" + Heading(line) + "</a></li>"
  }

  const TocHeader := "<div class=\"table-of-contents\"><h4><i class=\"fas fa-list me-2\"></i>Table of Contents</h4><ul>"
  const TocFooter := "</ul></div>"

  /** What one line contributes: its list item when it is a heading line, else nothing. */
  function LineItem(line: string): string
  {
    if IsHeadingLine(line) then TocItem(line) else ""
  }

  /** The items of the heading lines, in line order. */
  function TocItems(lines: seq<string>): string
  {
    Strings.ConcatMap(lines, LineItem)
  }

  /** generateTableOfContents: "" for null, else header, one item per heading line, footer. */
  function TableOfContents(markdown: Option<string>): string
  {
    match markdown
    case None => ""
    case Some(m) => TocHeader + TocItems(Strings.Split(m, '\n')) + TocFooter
  }

  /** Lines that are not headings contribute nothing; the items of two blocks of lines follow each other. */
  lemma TocItemsAppend(a: seq<string>, b: seq<string>)
    ensures TocItems(a + b) == TocItems(a) + TocItems(b)
  {
    Strings.ConcatMapAppend(a, b, LineItem);
  }

  /** One line more adds what that line contributes. */
  lemma TocItemsStep(lines: seq<string>, i: nat)
    requires i < |lines|
    ensures TocItems(lines[..i + 1]) == TocItems(lines[..i]) + LineItem(lines[i])
  {
    assert lines[..i + 1][..i] == lines[..i];
  }

  /** Text without heading lines gets an empty list. */
  lemma {:induction false} NoHeadingsEmptyList(lines: seq<string>)
    requires forall i :: 0 <= i < |lines| ==> !IsHeadingLine(lines[i])
    ensures TocItems(lines) == ""
    decreases |lines|
  {
    if |lines| > 0 {
      NoHeadingsEmptyList(lines[..|lines| - 1]);
      assert LineItem(lines[|lines| - 1]) == "";
    }
  }

  method GenerateTableOfContents(markdown: Option<string>) returns (toc: string)
    ensures toc == TableOfContents(markdown)
  {
    if markdown.None? {
      return "";
    }
    var lines := Strings.Split(markdown.value, '\n');
    var items := "";
    var i := 0;
    while i < |lines|
      invariant 0 <= i <= |lines|
      invariant items == TocItems(lines[..i])
    {
      TocItemsStep(lines, i);
      if IsHeadingLine(lines[i]) {
        items := items + TocItem(lines[i]);
      }
      i := i + 1;
    }
    assert lines[..i] == lines;
    toc := TocHeader + items + TocFooter;
  }
}

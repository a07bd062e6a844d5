/**
 * Copying the selected tabs' links to the clipboard in three formats, and
 * reading links back out of pasted text.
 *
 * The regular expressions of the source are modelled by hand-written
 * matchers that follow the engine's leftmost, greedy search:
 *   `/^https?:\/\/.+/`                 -- IsPlainUrl
 *   `/\[([^\]]+)\]\(([^)]+)\)/g`       -- MarkdownAt, MarkdownMatches
 *   `/\(([^)]+)\)/`                    -- ParenGroup
 *   `/href=["']([^"']+)["']/g`         -- HrefAt, HrefMatches, FirstHref
 */
module Links {
  import opened Wrappers
  import opened Text
  import opened Inventory

  // ---------------------------------------------------------------------
  // Character classes
  // ---------------------------------------------------------------------

  /** The characters `.` does not match. */
  predicate IsLineTerminator(c: char) {
    c == '\n' || c == '\r' || c == '\U{2028}' || c == '\U{2029}'
  }

  predicate IsCloseBracket(c: char) { c == ']' }

  predicate IsCloseParen(c: char) { c == ')' }

  predicate IsQuote(c: char) { c == '"' || c == '\'' }

  predicate StartsWith(s: string, p: string) {
    |p| <= |s| && s[..|p|] == p
  }

  /**
   * The end of the longest run, starting at `i`, of characters that do not
   * satisfy `stop`: the run a greedy negated class such as `[^)]+` takes.
   */
  function RunEnd(s: string, i: nat, stop: char -> bool): (r: nat)
    requires i <= |s|
    ensures i <= r <= |s|
    ensures forall k :: i <= k < r ==> !stop(s[k])
    ensures r < |s| ==> stop(s[r])
    decreases |s| - i
  {
    if i == |s| || stop(s[i]) then i else RunEnd(s, i + 1, stop)
  }

  // ---------------------------------------------------------------------
  // The three line shapes parseLinks recognises
  // ---------------------------------------------------------------------

  /** `/^https?:\/\/.+/.test(line)`: a scheme, then at least one character `.` matches. */
  predicate IsPlainUrl(line: string) {
    || (StartsWith(line, "http://") && |line| > 7 && !IsLineTerminator(line[7]))
    || (StartsWith(line, "https://") && |line| > 8 && !IsLineTerminator(line[8]))
  }

  /**
   * Whether `[title](url)` matches at position `p`, and where the match ends.
   * Both negated classes are greedy and stop at the first closing character,
   * so a failure after either run cannot be repaired by backtracking.
   */
  function MarkdownAt(s: string, p: nat): (r: Option<nat>)
    requires p <= |s|
    ensures r.Some? ==> p < r.value <= |s| && s[p] == '[' && s[r.value - 1] == ')'
  {
    if p == |s| || s[p] != '[' then None
    else
      var j := RunEnd(s, p + 1, IsCloseBracket);
      if j == p + 1 || j + 1 >= |s| || s[j + 1] != '(' then None
      else
        var k := RunEnd(s, j + 2, IsCloseParen);
        if k == j + 2 || k == |s| then None else Some(k + 1)
  }

  /** `line.match(/\[([^\]]+)\]\(([^)]+)\)/g)` from position `from`: every match, left to right. */
  function MarkdownMatches(s: string, from: nat): seq<string>
    requires from <= |s|
    decreases |s| - from
  {
    if from == |s| then []
    else match MarkdownAt(s, from)
      case Some(e) => [s[from..e]] + MarkdownMatches(s, e)
      case None => MarkdownMatches(s, from + 1)
  }

  /** `m.match(/\(([^)]+)\)/)[1]` searching from position `q`. */
  function ParenGroup(m: string, q: nat): Option<string>
    requires q <= |m|
    decreases |m| - q
  {
    if q == |m| then None
    else if m[q] == '(' && q + 1 < RunEnd(m, q + 1, IsCloseParen) < |m| then
      Some(m[q + 1..RunEnd(m, q + 1, IsCloseParen)])
    else ParenGroup(m, q + 1)
  }

  /**
   * The url of a markdown match `m`: the first parenthesised group after the
   * closing `]`, which is the second capture group of the markdown pattern.
   */
  function LinkTarget(m: string): Option<string> {
    if |m| == 0 then None else ParenGroup(m, RunEnd(m, 1, IsCloseBracket))
  }

  /** Whether `href="url"` (either quote, on either side) matches at `p`: its url and end. */
  function HrefAt(s: string, p: nat): (r: Option<(string, nat)>)
    requires p <= |s|
    ensures r.Some? ==> p < r.value.1 <= |s|
  {
    if |s| < p + 6 || s[p..p + 5] != "href=" || !IsQuote(s[p + 5]) then None
    else
      var e := RunEnd(s, p + 6, IsQuote);
      if e == p + 6 || e == |s| then None else Some((s[p + 6..e], e + 1))
  }

  /** `line.match(/href=["']([^"']+)["']/g)` from position `from`. */
  function HrefMatches(s: string, from: nat): seq<string>
    requires from <= |s|
    decreases |s| - from
  {
    if from == |s| then []
    else match HrefAt(s, from)
      case Some(h) => [s[from..h.1]] + HrefMatches(s, h.1)
      case None => HrefMatches(s, from + 1)
  }

  /** `m.match(/href=["']([^"']+)["']/)[1]` searching from position `q`. */
  function FirstHref(m: string, q: nat): Option<string>
    requires q <= |m|
    decreases |m| - q
  {
    if q == |m| then None
    else match HrefAt(m, q)
      case Some(h) => Some(h.0)
      case None => FirstHref(m, q + 1)
  }

  // ---------------------------------------------------------------------
  // parseLinks
  // ---------------------------------------------------------------------

  function OptionList(o: Option<string>): seq<string> {
    match o
    case Some(u) => [u]
    case None => []
  }

  /** The urls of the markdown matches of one line, each taken from its link target. */
  function MarkdownUrls(ms: seq<string>): seq<string> {
    if |ms| == 0 then []
    else MarkdownUrls(ms[..|ms| - 1]) + OptionList(LinkTarget(ms[|ms| - 1]))
  }

  /** As written, the url of each markdown match is its first parenthesised group. */
  function MarkdownUrlsAsWritten(ms: seq<string>): seq<string> {
    if |ms| == 0 then []
    else MarkdownUrlsAsWritten(ms[..|ms| - 1]) + OptionList(ParenGroup(ms[|ms| - 1], 0))
  }

  /** The urls pushed for the href matches of one line. */
  function HrefUrls(ms: seq<string>): seq<string> {
    if |ms| == 0 then []
    else HrefUrls(ms[..|ms| - 1]) + OptionList(FirstHref(ms[|ms| - 1], 0))
  }

  /** What one line contributes under the intended reading: itself, its markdown link targets, or its href values. */
  function LineUrls(line: string): seq<string> {
    if IsPlainUrl(line) then [line]
    else if |MarkdownMatches(line, 0)| > 0 then MarkdownUrls(MarkdownMatches(line, 0))
    else HrefUrls(HrefMatches(line, 0))
  }

  /** What one line contributes as written: markdown matches give their first parenthesised group. */
  function LineUrlsAsWritten(line: string): seq<string> {
    if IsPlainUrl(line) then [line]
    else if |MarkdownMatches(line, 0)| > 0 then MarkdownUrlsAsWritten(MarkdownMatches(line, 0))
    else HrefUrls(HrefMatches(line, 0))
  }

  function TrimAll(ls: seq<string>): (r: seq<string>)
    ensures |r| == |ls| && forall i :: 0 <= i < |ls| ==> r[i] == Trim(ls[i])
  {
    seq(|ls|, i requires 0 <= i < |ls| => Trim(ls[i]))
  }

  function NonEmpty(ls: seq<string>): seq<string> {
    if |ls| == 0 then []
    else NonEmpty(ls[..|ls| - 1]) + (if ls[|ls| - 1] == "" then [] else [ls[|ls| - 1]])
  }

  /** `text.trim().split('\n').map(l => l.trim()).filter(l => l)`. */
  function Lines(text: string): seq<string> {
    NonEmpty(TrimAll(Split(Trim(text), '\n')))
  }

  /** What `lineUrls` gives for each line, concatenated in line order. */
  function UrlsOf(lines: seq<string>, lineUrls: string -> seq<string>): seq<string> {
    if |lines| == 0 then []
    else UrlsOf(lines[..|lines| - 1], lineUrls) + lineUrls(lines[|lines| - 1])
  }

  function UrlsOfLines(lines: seq<string>): seq<string> {
    UrlsOf(lines, LineUrls)
  }

  /**
   * The urls of `text`, in order, when each markdown link gives its target
   * (the part after `](`): the intended reading of parseLinks.
   */
  function LinksIn(text: string): seq<string> {
    UrlsOfLines(Lines(text))
  }

  function UrlsOfLinesAsWritten(lines: seq<string>): seq<string> {
    UrlsOf(lines, LineUrlsAsWritten)
  }

  /** parseLinks as written, taking a markdown link's url from its first parentheses. */
  function LinksInAsWritten(text: string): seq<string> {
    UrlsOfLinesAsWritten(Lines(text))
  }

  /** The markdown loop: each match pushes its first parenthesised group. */
  method PushMarkdownUrls(urls0: seq<string>, matches: seq<string>) returns (urls: seq<string>)
    ensures urls == urls0 + MarkdownUrlsAsWritten(matches)
  {
    urls := urls0;
    var i := 0;
    while i < |matches|
      invariant 0 <= i <= |matches|
      invariant urls == urls0 + MarkdownUrlsAsWritten(matches[..i])
    {
      var urlMatch := ParenGroup(matches[i], 0);
      if urlMatch.Some? {
        urls := urls + [urlMatch.value];
      }
      assert matches[..i + 1][..i] == matches[..i];
      i := i + 1;
    }
    assert matches[..i] == matches;
  }

  method PushHrefUrls(urls0: seq<string>, matches: seq<string>) returns (urls: seq<string>)
    ensures urls == urls0 + HrefUrls(matches)
  {
    urls := urls0;
    var i := 0;
    while i < |matches|
      invariant 0 <= i <= |matches|
      invariant urls == urls0 + HrefUrls(matches[..i])
    {
      var urlMatch := FirstHref(matches[i], 0);
      if urlMatch.Some? {
        urls := urls + [urlMatch.value];
      }
      assert matches[..i + 1][..i] == matches[..i];
      i := i + 1;
    }
    assert matches[..i] == matches;
  }

  lemma UrlsOfLinesStep(lines: seq<string>, i: nat)
    requires i < |lines|
    ensures UrlsOfLinesAsWritten(lines[..i + 1]) == UrlsOfLinesAsWritten(lines[..i]) + LineUrlsAsWritten(lines[i])
  {
    assert lines[..i + 1][..i] == lines[..i];
  }

  /** The body of parseLinks' loop: a plain url, else its markdown links, else its href values. */
  method PushLineUrls(urls0: seq<string>, line: string) returns (urls: seq<string>)
    ensures urls == urls0 + LineUrlsAsWritten(line)
  {
    if IsPlainUrl(line) {
      urls := urls0 + [line];
    } else {
      var markdownMatch := MarkdownMatches(line, 0);
      if |markdownMatch| > 0 {
        urls := PushMarkdownUrls(urls0, markdownMatch);
      } else {
        var htmlMatch := HrefMatches(line, 0);
        urls := PushHrefUrls(urls0, htmlMatch);
      }
    }
  }

  /** parseLinks, as written: the urls of every non-blank line, line by line. */
  method ParseLinks(text: string) returns (urls: seq<string>)
    ensures urls == LinksInAsWritten(text)
  {
    var lines := Lines(text);
    urls := [];
    var i := 0;
    while i < |lines|
      invariant 0 <= i <= |lines|
      invariant urls == UrlsOfLinesAsWritten(lines[..i])
    {
      UrlsOfLinesStep(lines, i);
      urls := PushLineUrls(urls, lines[i]);
      i := i + 1;
    }
    assert lines[..i] == lines;
  }

  // ---------------------------------------------------------------------
  // escapeHtmlForCopy
  // ---------------------------------------------------------------------

  /** `s.replace(/c/g, repl)`. */
  function ReplaceAll(s: string, c: char, repl: string): string {
    if |s| == 0 then "" else (if s[0] == c then repl else [s[0]]) + ReplaceAll(s[1..], c, repl)
  }

  /** The five replacements, `&` first so that no entity is escaped twice. */
  function EscapeForCopy(s: string): string {
    ReplaceAll(ReplaceAll(ReplaceAll(ReplaceAll(ReplaceAll(
      s, '&', "&amp;"), '<', "&lt;"), '>', "&gt;"), '"', "&quot;"), '\'', "&#039;")
  }

  /** The entity one character becomes. */
  function EscapeChar(c: char): string {
    if c == '&' then "&amp;"
    else if c == '<' then "&lt;"
    else if c == '>' then "&gt;"
    else if c == '"' then "&quot;"
    else if c == '\'' then "&#039;"
    else [c]
  }

  /** Escaping character by character, the reference for EscapeForCopy. */
  function EscapeEach(s: string): string {
    if |s| == 0 then "" else EscapeChar(s[0]) + EscapeEach(s[1..])
  }

  /** Reading entities back, left to right. */
  function Unescape(s: string): string
    decreases |s|
  {
    if |s| == 0 then ""
    else if StartsWith(s, "&amp;") then "&" + Unescape(s[5..])
    else if StartsWith(s, "&lt;") then "<" + Unescape(s[4..])
    else if StartsWith(s, "&gt;") then ">" + Unescape(s[4..])
    else if StartsWith(s, "&quot;") then "\"" + Unescape(s[6..])
    else if StartsWith(s, "&#039;") then "'" + Unescape(s[6..])
    else [s[0]] + Unescape(s[1..])
  }

  lemma {:induction false} ReplaceAllConcat(a: string, b: string, c: char, repl: string)
    ensures ReplaceAll(a + b, c, repl) == ReplaceAll(a, c, repl) + ReplaceAll(b, c, repl)
  {
    if |a| > 0 {
      assert (a + b)[1..] == a[1..] + b;
      ReplaceAllConcat(a[1..], b, c, repl);
    } else {
      assert a + b == b;
    }
  }

  lemma {:induction false} ReplaceAbsent(s: string, c: char, repl: string)
    requires c !in s
    ensures ReplaceAll(s, c, repl) == s
  {
    if |s| > 0 {
      assert s[0] != c;
      ReplaceAbsent(s[1..], c, repl);
    }
  }

  lemma EscapeConcat(a: string, b: string)
    ensures EscapeForCopy(a + b) == EscapeForCopy(a) + EscapeForCopy(b)
  {
    var a1, b1 := ReplaceAll(a, '&', "&amp;"), ReplaceAll(b, '&', "&amp;");
    ReplaceAllConcat(a, b, '&', "&amp;");
    var a2, b2 := ReplaceAll(a1, '<', "&lt;"), ReplaceAll(b1, '<', "&lt;");
    ReplaceAllConcat(a1, b1, '<', "&lt;");
    var a3, b3 := ReplaceAll(a2, '>', "&gt;"), ReplaceAll(b2, '>', "&gt;");
    ReplaceAllConcat(a2, b2, '>', "&gt;");
    var a4, b4 := ReplaceAll(a3, '"', "&quot;"), ReplaceAll(b3, '"', "&quot;");
    ReplaceAllConcat(a3, b3, '"', "&quot;");
    ReplaceAllConcat(a4, b4, '\'', "&#039;");
  }

  /** Replacing in a one-character string, or in a string without the target. */
  lemma ReplaceStep(x: string, c: char, d: char, repl: string)
    requires x == [c] || d !in x
    ensures ReplaceAll(x, d, repl) == if x == [c] && c == d then repl else x
  {
    if x == [c] {
      assert x[1..] == [];
    } else {
      ReplaceAbsent(x, d, repl);
    }
  }

  /** The replacements after the one that produced entity `x` leave it alone. */
  lemma EntityKept(x: string, from: nat)
    requires 1 <= from <= 4
    requires forall d :: d in "&<>\"'"[from..] ==> d !in x
    ensures ReplaceAll(x, '\'', "&#039;") == x
    ensures from <= 3 ==> ReplaceAll(ReplaceAll(x, '"', "&quot;"), '\'', "&#039;") == x
    ensures from <= 2 ==> ReplaceAll(ReplaceAll(ReplaceAll(x, '>', "&gt;"), '"', "&quot;"), '\'', "&#039;") == x
    ensures from <= 1 ==>
      ReplaceAll(ReplaceAll(ReplaceAll(ReplaceAll(x, '<', "&lt;"), '>', "&gt;"), '"', "&quot;"), '\'', "&#039;") == x
  {
    assert "&<>\"'"[4] == '\'';
    ReplaceAbsent(x, '\'', "&#039;");
    if from <= 3 {
      assert "&<>\"'"[3] == '"';
      ReplaceAbsent(x, '"', "&quot;");
    }
    if from <= 2 {
      assert "&<>\"'"[2] == '>';
      ReplaceAbsent(x, '>', "&gt;");
    }
    if from <= 1 {
      assert "&<>\"'"[1] == '<';
      ReplaceAbsent(x, '<', "&lt;");
    }
  }

  /** Escaping a single character gives its entity. */
  lemma EscapeOneChar(c: char)
    ensures EscapeForCopy([c]) == EscapeChar(c)
  {
    ReplaceStep([c], c, '&', "&amp;");
    if c == '&' {
      EntityKept("&amp;", 1);
    } else {
      ReplaceStep([c], c, '<', "&lt;");
      if c == '<' {
        EntityKept("&lt;", 2);
      } else {
        ReplaceStep([c], c, '>', "&gt;");
        if c == '>' {
          EntityKept("&gt;", 3);
        } else {
          ReplaceStep([c], c, '"', "&quot;");
          if c == '"' {
            EntityKept("&quot;", 4);
          } else {
            ReplaceStep([c], c, '\'', "&#039;");
          }
        }
      }
    }
  }

  /** The chain of replacements is the same as escaping each character on its own. */
  lemma {:induction false} EscapeIsPerChar(s: string)
    ensures EscapeForCopy(s) == EscapeEach(s)
  {
    if |s| == 0 {
      assert EscapeForCopy(s) == "";
    } else {
      assert s == [s[0]] + s[1..];
      EscapeConcat([s[0]], s[1..]);
      EscapeOneChar(s[0]);
      EscapeIsPerChar(s[1..]);
    }
  }

  /** No character of an escaped string is one of the four that need escaping. */
  lemma {:induction false} EscapedIsInert(s: string)
    ensures forall k :: 0 <= k < |EscapeEach(s)| ==> EscapeEach(s)[k] !in "<>\"'"
    ensures '\n' !in s ==> '\n' !in EscapeEach(s)
    ensures '[' !in s ==> '[' !in EscapeEach(s)
  {
    if |s| > 0 {
      EscapedIsInert(s[1..]);
      var e := EscapeChar(s[0]);
      assert forall k :: 0 <= k < |e| ==> e[k] !in "<>\"'[\n" || e[k] == s[0];
    }
  }

  lemma UnescapeAmp(rest: string)
    ensures Unescape("&amp;" + rest) == "&" + Unescape(rest)
  {
    var e := "&amp;" + rest;
    assert e[..5] == "&amp;" && e[5..] == rest;
  }

  lemma UnescapeLt(rest: string)
    ensures Unescape("&lt;" + rest) == "<" + Unescape(rest)
  {
    var e := "&lt;" + rest;
    assert !StartsWith(e, "&amp;") by { assert e[1] == 'l'; }
    assert e[..4] == "&lt;" && e[4..] == rest;
  }

  lemma UnescapeGt(rest: string)
    ensures Unescape("&gt;" + rest) == ">" + Unescape(rest)
  {
    var e := "&gt;" + rest;
    assert !StartsWith(e, "&amp;") && e[..4] != "&lt;" by { assert e[1] == 'g'; }
    assert e[..4] == "&gt;" && e[4..] == rest;
  }

  lemma UnescapeQuot(rest: string)
    ensures Unescape("&quot;" + rest) == "\"" + Unescape(rest)
  {
    var e := "&quot;" + rest;
    assert e[..5] != "&amp;" && e[..4] != "&lt;" && e[..4] != "&gt;" by { assert e[1] == 'q'; }
    assert e[..6] == "&quot;" && e[6..] == rest;
  }

  lemma UnescapeApos(rest: string)
    ensures Unescape("&#039;" + rest) == "'" + Unescape(rest)
  {
    var e := "&#039;" + rest;
    assert e[..5] != "&amp;" && e[..4] != "&lt;" && e[..4] != "&gt;" && e[..6] != "&quot;" by {
      assert e[1] == '#';
    }
    assert e[..6] == "&#039;" && e[6..] == rest;
  }

  /** A string whose first character differs from that of `p` does not start with `p`. */
  lemma NotStartsWith(s: string, p: string)
    requires |p| > 0 && |s| > 0 && s[0] != p[0]
    ensures !StartsWith(s, p)
  {
    if |p| <= |s| {
      assert s[..|p|][0] != p[0];
    }
  }

  lemma UnescapePlain(c: char, rest: string)
    requires c !in "&<>\"'"
    ensures Unescape([c] + rest) == [c] + Unescape(rest)
  {
    var e := [c] + rest;
    assert e[0] == c && e[1..] == rest;
    NotStartsWith(e, "&amp;");
    NotStartsWith(e, "&lt;");
    NotStartsWith(e, "&gt;");
    NotStartsWith(e, "&quot;");
    NotStartsWith(e, "&#039;");
  }

  /** Unescaping undoes escaping, one character at a time. */
  lemma {:induction false} UnescapeEach(s: string)
    ensures Unescape(EscapeEach(s)) == s
  {
    if |s| > 0 {
      var c, rest := s[0], EscapeEach(s[1..]);
      UnescapeEach(s[1..]);
      if c == '&' {
        UnescapeAmp(rest);
      } else if c == '<' {
        UnescapeLt(rest);
      } else if c == '>' {
        UnescapeGt(rest);
      } else if c == '"' {
        UnescapeQuot(rest);
      } else if c == '\'' {
        UnescapeApos(rest);
      } else {
        UnescapePlain(c, rest);
      }
      assert s == [c] + s[1..];
    }
  }

  lemma UnescapeEscape(s: string)
    ensures Unescape(EscapeForCopy(s)) == s
  {
    EscapeIsPerChar(s);
    UnescapeEach(s);
  }

  // ---------------------------------------------------------------------
  // copyLinksToClipboard
  // ---------------------------------------------------------------------

  datatype Link = Link(title: string, url: string)

  /** The copy-format select; any other value copies the empty string. */
  datatype Format = Plain | Markdown | Html | Other

  function LinkOf(tab: Tab): Link {
    Link(tab.title, tab.url)
  }

  /** The selected tabs of one window, in tab order. */
  function TabLinks(tabs: seq<Tab>, selected: set<int>): seq<Link> {
    if |tabs| == 0 then []
    else
      var last := tabs[|tabs| - 1];
      TabLinks(tabs[..|tabs| - 1], selected) + (if last.id in selected then [LinkOf(last)] else [])
  }

  /** The selected tabs of every window, in inventory order. */
  function SelectedLinks(windows: seq<Window>, selected: set<int>): seq<Link> {
    if |windows| == 0 then []
    else SelectedLinks(windows[..|windows| - 1], selected) + TabLinks(windows[|windows| - 1].tabs, selected)
  }

  lemma {:induction false} TabLinksMembers(tabs: seq<Tab>, selected: set<int>, l: Link)
    ensures l in TabLinks(tabs, selected) <==> exists j :: 0 <= j < |tabs| && tabs[j].id in selected && l == LinkOf(tabs[j])
  {
    if |tabs| > 0 {
      var init := tabs[..|tabs| - 1];
      TabLinksMembers(init, selected, l);
      assert forall j :: 0 <= j < |init| ==> init[j] == tabs[j];
    }
  }

  /** A link is gathered exactly when some window holds a selected tab with that title and url. */
  lemma {:induction false} SelectedLinksMembers(windows: seq<Window>, selected: set<int>, l: Link)
    ensures l in SelectedLinks(windows, selected) <==>
      exists i, j :: 0 <= i < |windows| && 0 <= j < |windows[i].tabs| &&
        windows[i].tabs[j].id in selected && l == LinkOf(windows[i].tabs[j])
  {
    if |windows| > 0 {
      var init, last := windows[..|windows| - 1], windows[|windows| - 1];
      SelectedLinksMembers(init, selected, l);
      TabLinksMembers(last.tabs, selected, l);
      assert forall i :: 0 <= i < |init| ==> init[i] == windows[i];
      if l in TabLinks(last.tabs, selected) {
        var j :| 0 <= j < |last.tabs| && last.tabs[j].id in selected && l == LinkOf(last.tabs[j]);
        assert windows[|windows| - 1].tabs[j] == last.tabs[j];
      }
    }
  }

  method GatherWindow(data0: seq<Link>, tabs: seq<Tab>, selected: set<int>) returns (data: seq<Link>)
    ensures data == data0 + TabLinks(tabs, selected)
  {
    data := data0;
    var j := 0;
    while j < |tabs|
      invariant 0 <= j <= |tabs|
      invariant data == data0 + TabLinks(tabs[..j], selected)
    {
      if tabs[j].id in selected {
        data := data + [LinkOf(tabs[j])];
      }
      assert tabs[..j + 1][..j] == tabs[..j];
      j := j + 1;
    }
    assert tabs[..j] == tabs;
  }

  /** The gathering loop of copyLinksToClipboard. */
  method GatherSelected(windows: seq<Window>, selected: set<int>) returns (data: seq<Link>)
    ensures data == SelectedLinks(windows, selected)
  {
    data := [];
    var i := 0;
    while i < |windows|
      invariant 0 <= i <= |windows|
      invariant data == SelectedLinks(windows[..i], selected)
    {
      data := GatherWindow(data, windows[i].tabs, selected);
      assert windows[..i + 1][..i] == windows[..i];
      i := i + 1;
    }
    assert windows[..i] == windows;
  }

  function MarkdownLink(title: string, url: string): string {
    "[" + title + "](" + url + ")"
  }

  function HtmlAnchor(url: string, text: string): string {
    "<a href=\"" + url + "\">" + text + "</a>"
  }

  function FormatLine(format: Format, l: Link): string {
    match format
    case Plain => l.url
    case Markdown => MarkdownLink(l.title, l.url)
    case Html => HtmlAnchor(l.url, EscapeForCopy(l.title))
    case Other => ""
  }

  /** The clipboard text: one line per link, joined by newlines. */
  function Export(links: seq<Link>, format: Format): string {
    if format == Other then ""
    else Join(seq(|links|, i requires 0 <= i < |links| => FormatLine(format, links[i])), '\n')
  }

  /** copyLinksToClipboard's text; None when nothing is selected and nothing is copied. */
  function ClipboardText(windows: seq<Window>, selected: set<int>, format: Format): Option<string> {
    if |selected| == 0 then None else Some(Export(SelectedLinks(windows, selected), format))
  }

  function Urls(links: seq<Link>): (r: seq<string>)
    ensures |r| == |links| && forall i :: 0 <= i < |links| ==> r[i] == links[i].url
  {
    seq(|links|, i requires 0 <= i < |links| => links[i].url)
  }

  // ---------------------------------------------------------------------
  // Round trips: what is copied in any format is read back by parseLinks
  // ---------------------------------------------------------------------

  /** A link whose line in `format` parseLinks reads back as its url. */
  predicate Exportable(l: Link, format: Format) {
    match format
    case Plain => IsPlainUrl(l.url) && IsTrimmed(l.url) && '\n' !in l.url
    case Markdown =>
      && l.title != "" && ']' !in l.title && '\n' !in l.title
      && l.url != "" && ')' !in l.url && '\n' !in l.url
    case Html =>
      && '[' !in l.title && '\n' !in l.title
      && l.url != "" && '"' !in l.url && '\'' !in l.url && '[' !in l.url && '\n' !in l.url
    case Other => false
  }

  lemma {:induction false} NonEmptyAll(ls: seq<string>)
    requires forall i :: 0 <= i < |ls| ==> ls[i] != ""
    ensures NonEmpty(ls) == ls
  {
    if |ls| > 0 {
      NonEmptyAll(ls[..|ls| - 1]);
      assert ls[..|ls| - 1] + [ls[|ls| - 1]] == ls;
    }
  }

  lemma LinesOfNothing()
    ensures Lines(Join([], '\n')) == []
  {
    assert Trim("") == "";
    assert Split("", '\n') == [""];
    assert TrimAll([""]) == [""];
    assert NonEmpty([""]) == [];
  }

  lemma TrimAllTrimmed(parts: seq<string>)
    requires forall i :: 0 <= i < |parts| ==> IsTrimmed(parts[i])
    ensures TrimAll(parts) == parts
  {
    forall i | 0 <= i < |parts| ensures Trim(parts[i]) == parts[i] {
      TrimOfTrimmed(parts[i]);
    }
  }

  lemma SplitTrimmedJoin(parts: seq<string>)
    requires |parts| > 0
    requires forall i :: 0 <= i < |parts| ==> parts[i] != "" && IsTrimmed(parts[i]) && '\n' !in parts[i]
    ensures Split(Trim(Join(parts, '\n')), '\n') == parts
  {
    JoinTrimmed(parts, '\n');
    TrimOfTrimmed(Join(parts, '\n'));
    SplitJoin(parts, '\n');
  }

  lemma LinesOfParts(parts: seq<string>)
    requires |parts| > 0
    requires forall i :: 0 <= i < |parts| ==> parts[i] != "" && IsTrimmed(parts[i]) && '\n' !in parts[i]
    ensures Lines(Join(parts, '\n')) == parts
  {
    SplitTrimmedJoin(parts);
    TrimAllTrimmed(parts);
    NonEmptyAll(parts);
  }

  /** Lines that are trimmed, non-empty and newline-free survive the join and the split. */
  lemma LinesOfJoin(parts: seq<string>)
    requires forall i :: 0 <= i < |parts| ==> parts[i] != "" && IsTrimmed(parts[i]) && '\n' !in parts[i]
    ensures Lines(Join(parts, '\n')) == parts
  {
    if |parts| == 0 {
      LinesOfNothing();
    } else {
      LinesOfParts(parts);
    }
  }
  lemma {:induction false} UrlsOfSingletonsUpTo(lines: seq<string>, urls: seq<string>, f: string -> seq<string>, n: nat)
    requires n <= |lines| == |urls|
    requires forall i :: 0 <= i < |lines| ==> f(lines[i]) == [urls[i]]
    ensures UrlsOf(lines[..n], f) == urls[..n]
  {
    if n > 0 {
      UrlsOfSingletonsUpTo(lines, urls, f, n - 1);
      assert lines[..n][..n - 1] == lines[..n - 1];
      assert urls[..n] == urls[..n - 1] + [urls[n - 1]];
    }
  }

  /** Lines that each hold one url give those urls, in order. */
  lemma UrlsOfSingletons(lines: seq<string>, urls: seq<string>)
    requires |lines| == |urls|
    requires forall i :: 0 <= i < |lines| ==> LineUrls(lines[i]) == [urls[i]]
    ensures UrlsOfLines(lines) == urls
  {
    UrlsOfSingletonsWith(lines, urls, LineUrls);
  }

  /** No `[` left means no markdown match. */
  lemma {:induction false} NoMarkdownWithoutBracket(s: string, from: nat)
    requires from <= |s|
    requires forall k :: from <= k < |s| ==> s[k] != '['
    ensures MarkdownMatches(s, from) == []
    decreases |s| - from
  {
    if from < |s| {
      NoMarkdownWithoutBracket(s, from + 1);
    }
  }

  /** No quote left means no href match. */
  lemma {:induction false} NoHrefWithoutQuote(s: string, from: nat)
    requires from <= |s|
    requires forall k :: from <= k < |s| ==> !IsQuote(s[k])
    ensures HrefMatches(s, from) == []
    decreases |s| - from
  {
    if from < |s| {
      NoHrefWithoutQuote(s, from + 1);
    }
  }

  /** The paren search passes over characters that are not `(`. */
  lemma {:induction false} ParenGroupSkips(m: string, q: nat, q': nat)
    requires q <= q' <= |m|
    requires forall k :: q <= k < q' ==> m[k] != '('
    ensures ParenGroup(m, q) == ParenGroup(m, q')
    decreases q' - q
  {
    if q < q' {
      ParenGroupSkips(m, q + 1, q');
    }
  }

  /** The one markdown match of a `[t](u)` line is the whole line. */
  lemma MarkdownMatchesWhole(t: string, u: string)
    requires t != "" && ']' !in t
    requires u != "" && ')' !in u
    ensures MarkdownMatches(MarkdownLink(t, u), 0) == [MarkdownLink(t, u)]
  {
    var m := MarkdownLink(t, u);
    var j, k := 1 + |t|, 3 + |t| + |u|;
    assert forall i :: 1 <= i < j ==> m[i] == t[i - 1];
    assert m[j] == ']';
    assert RunEnd(m, 1, IsCloseBracket) == j;
    assert m[j + 1] == '(';
    assert forall i :: j + 2 <= i < k ==> m[i] == u[i - j - 2];
    assert m[k] == ')';
    assert RunEnd(m, j + 2, IsCloseParen) == k;
    assert MarkdownAt(m, 0) == Some(|m|);
    assert m[0..|m|] == m;
  }

  /** The link target of a `[t](u)` match is `u`. */
  lemma LinkTargetIsUrl(t: string, u: string)
    requires t != "" && ']' !in t
    requires u != "" && ')' !in u
    ensures LinkTarget(MarkdownLink(t, u)) == Some(u)
  {
    var m := MarkdownLink(t, u);
    var j, k := 1 + |t|, 3 + |t| + |u|;
    assert forall i :: 1 <= i < j ==> m[i] == t[i - 1];
    assert m[j] == ']' && m[j + 1] == '(';
    assert RunEnd(m, 1, IsCloseBracket) == j;
    assert forall i :: j + 2 <= i < k ==> m[i] == u[i - j - 2];
    assert m[k] == ')';
    assert RunEnd(m, j + 2, IsCloseParen) == k;
    assert m[j + 2..k] == u;
    assert ParenGroup(m, j + 1) == Some(u);
    assert ParenGroup(m, j) == ParenGroup(m, j + 1);
  }

  /** As written, the first parenthesised group is `u` too, when the title has no `(`. */
  lemma FirstGroupIsUrl(t: string, u: string)
    requires '(' !in t
    requires u != "" && ')' !in u
    ensures ParenGroup(MarkdownLink(t, u), 0) == Some(u)
  {
    var m := MarkdownLink(t, u);
    var j, k := 1 + |t|, 3 + |t| + |u|;
    assert forall i :: 1 <= i < j ==> m[i] == t[i - 1];
    assert m[0] == '[' && m[j] == ']' && m[j + 1] == '(';
    ParenGroupSkips(m, 0, j + 1);
    assert forall i :: j + 2 <= i < k ==> m[i] == u[i - j - 2];
    assert m[k] == ')';
    assert RunEnd(m, j + 2, IsCloseParen) == k;
    assert m[j + 2..k] == u;
  }

  lemma MarkdownLine(t: string, u: string)
    requires t != "" && ']' !in t
    requires u != "" && ')' !in u
    ensures LineUrls(MarkdownLink(t, u)) == [u]
  {
    var m := MarkdownLink(t, u);
    assert !StartsWith(m, "http://") && !StartsWith(m, "https://") by { assert m[0] == '['; }
    MarkdownMatchesWhole(t, u);
    LinkTargetIsUrl(t, u);
    assert [m][..0] == [];
    assert MarkdownUrls([m]) == MarkdownUrls([]) + OptionList(LinkTarget(m));
  }

  /** Without a `(` in the title, parseLinks as written reads the url as intended. */
  lemma MarkdownAsWrittenAgrees(t: string, u: string)
    requires t != "" && ']' !in t && '(' !in t
    requires u != "" && ')' !in u
    ensures LineUrlsAsWritten(MarkdownLink(t, u)) == LineUrls(MarkdownLink(t, u)) == [u]
  {
    var m := MarkdownLink(t, u);
    assert !StartsWith(m, "http://") && !StartsWith(m, "https://") by { assert m[0] == '['; }
    MarkdownMatchesWhole(t, u);
    FirstGroupIsUrl(t, u);
    MarkdownLine(t, u);
    assert [m][..0] == [];
    assert MarkdownUrlsAsWritten([m]) == MarkdownUrlsAsWritten([]) + OptionList(ParenGroup(m, 0));
  }

  /** A `(g)` inside a string is a parenthesised group where it stands. */
  lemma ParenInside(s: string, pre: string, g: string, post: string)
    requires s == pre + ("(" + g + ")") + post
    requires g != "" && ')' !in g
    ensures ParenGroup(s, |pre|) == Some(g)
  {
    var h := "(" + g + ")";
    var q := |pre|;
    Parts3(s, pre, h, post);
    Parts3(h, "(", g, ")");
    assert s[q] == h[0] == '(';
    assert forall i :: q + 1 <= i < q + 1 + |g| ==> s[i] == g[i - q - 1];
    assert s[q + 1 + |g|] == h[1 + |g|] == ')';
    assert RunEnd(s, q + 1, IsCloseParen) == q + 1 + |g|;
    assert s[q + 1..q + 1 + |g|] == h[1..1 + |g|] == g;
  }

  /** A prefix without `c` leaves no `c` before `q`. */
  lemma NoCharBefore(s: string, q: nat, pre: string, c: char)
    requires q <= |s| && s[..q] == pre && c !in pre
    ensures forall k :: 0 <= k < q ==> s[k] != c
  {
    forall k | 0 <= k < q ensures s[k] != c {
      assert s[k] == pre[k];
    }
  }

  lemma ParenTitleShape(a: string, g: string, u: string)
    ensures MarkdownLink(a + "(" + g + ")", u) == ("[" + a) + ("(" + g + ")") + ("](" + u + ")")
  {
  }

  /** The first parenthesised group of `[a(g)](u)` is `g`. */
  lemma ParenTitleGroup(a: string, g: string, u: string)
    requires '(' !in a
    requires g != "" && ')' !in g
    ensures ParenGroup(MarkdownLink(a + "(" + g + ")", u), 0) == Some(g)
  {
    var m := MarkdownLink(a + "(" + g + ")", u);
    var pre := "[" + a;
    ParenTitleShape(a, g, u);
    ParenInside(m, pre, g, "](" + u + ")");
    Parts3(m, pre, "(" + g + ")", "](" + u + ")");
    NoCharBefore(m, |pre|, pre, '(');
    ParenGroupSkips(m, 0, |pre|);
  }

  lemma ParenTitleNoBracket(a: string, g: string)
    requires ']' !in a && '\n' !in a && ']' !in g && '\n' !in g
    ensures ']' !in a + "(" + g + ")" && '\n' !in a + "(" + g + ")"
  {
    var t := a + "(" + g + ")";
    assert forall i :: 0 <= i < |t| ==> t[i] in a || t[i] in g || t[i] in "()";
  }

  /** As written, a `(g)` in the title is taken for the url. */
  lemma ParenTitleLine(a: string, g: string, u: string)
    requires ']' !in a && '(' !in a && '\n' !in a
    requires g != "" && ')' !in g && ']' !in g && '\n' !in g
    requires u != "" && ')' !in u
    ensures LineUrlsAsWritten(MarkdownLink(a + "(" + g + ")", u)) == [g]
  {
    var t := a + "(" + g + ")";
    var m := MarkdownLink(t, u);
    ParenTitleGroup(a, g, u);
    ParenTitleNoBracket(a, g);
    MarkdownMatchesWhole(t, u);
    assert !StartsWith(m, "http://") && !StartsWith(m, "https://") by { assert m[0] == '['; }
    var noMatches: seq<string> := [];
    assert [m][..0] == noMatches;
    assert MarkdownUrlsAsWritten([m]) == MarkdownUrlsAsWritten([]) + OptionList(ParenGroup(m, 0));
  }

  /** One link exports as its own line. */
  lemma ExportOne(l: Link, format: Format)
    requires format != Other
    ensures Export([l], format) == FormatLine(format, l)
  {
    var lines := seq(1, i requires 0 <= i < 1 => FormatLine(format, [l][i]));
    assert lines == [FormatLine(format, l)];
  }

  /** A single well-formed line is the only line of itself. */
  lemma LinesOfOne(m: string)
    requires m != "" && IsTrimmed(m) && '\n' !in m
    ensures Lines(m) == [m]
  {
    assert Join([m], '\n') == m;
    LinesOfJoin([m]);
  }

  lemma UrlsOfOneLine(m: string, f: string -> seq<string>)
    ensures UrlsOf([m], f) == f(m)
  {
    var noLines: seq<string> := [];
    assert [m][..0] == noLines;
    assert UrlsOf([m], f) == UrlsOf(noLines, f) + f(m);
  }

  lemma UrlsOfOne(m: string)
    ensures UrlsOfLines([m]) == LineUrls(m)
    ensures UrlsOfLinesAsWritten([m]) == LineUrlsAsWritten(m)
  {
    UrlsOfOneLine(m, LineUrls);
    UrlsOfOneLine(m, LineUrlsAsWritten);
  }

  /**
   * A tab titled `a(g)`, as titles such as `Docs (v2)` are, copied in the
   * markdown format: parseLinks as written reads it back as `g`, the intended
   * reading gives its url.
   */
  lemma ParenTitleRoundTrip(a: string, g: string, u: string)
    requires ']' !in a && '(' !in a && '\n' !in a
    requires g != "" && ')' !in g && ']' !in g && '\n' !in g
    requires u != "" && ')' !in u && '\n' !in u
    ensures LinksInAsWritten(Export([Link(a + "(" + g + ")", u)], Markdown)) == [g]
    ensures LinksIn(Export([Link(a + "(" + g + ")", u)], Markdown)) == [u]
  {
    var l := Link(a + "(" + g + ")", u);
    var m := MarkdownLink(l.title, l.url);
    ParenTitleNoBracket(a, g);
    assert l.title != "" by { assert |l.title| >= 2; }
    ExportOne(l, Markdown);
    MarkdownExportLine(l);
    LinesOfOne(m);
    ParenTitleLine(a, g, u);
    UrlsOfOne(m);
  }

  lemma HrefAtQuoted(s: string, p: nat, u: string)
    requires p + 7 + |u| <= |s|
    requires s[p..p + 6] == "href=\"" && s[p + 6..p + 6 + |u|] == u && s[p + 6 + |u|] == '"'
    requires u != "" && '"' !in u && '\'' !in u
    ensures HrefAt(s, p) == Some((u, p + 7 + |u|))
  {
    assert s[p..p + 5] == s[p..p + 6][..5];
    assert forall i :: p + 6 <= i < p + 6 + |u| ==> s[i] == u[i - p - 6];
    assert RunEnd(s, p + 6, IsQuote) == p + 6 + |u|;
  }

  /** An anchor line holds no `[`, so no markdown match. */
  lemma AnchorNoMarkdown(u: string, e: string)
    requires '[' !in u && '[' !in e
    ensures MarkdownMatches(HtmlAnchor(u, e), 0) == []
  {
    var line := HtmlAnchor(u, e);
    assert forall k :: 0 <= k < |line| ==> line[k] != '[';
    NoMarkdownWithoutBracket(line, 0);
  }

  /** The search for `href=` passes over the `<a ` that opens an anchor line. */
  lemma AnchorHrefSkip(u: string, e: string)
    ensures HrefMatches(HtmlAnchor(u, e), 0) == HrefMatches(HtmlAnchor(u, e), 3)
  {
    var line := HtmlAnchor(u, e);
    assert line[..5] != "href=" by { assert line[0] == '<'; }
    assert line[1..6] != "href=" by { assert line[1] == 'a'; }
    assert line[2..7] != "href=" by { assert line[2] == ' '; }
    assert HrefMatches(line, 2) == HrefMatches(line, 3);
    assert HrefMatches(line, 1) == HrefMatches(line, 2);
  }

  /** The three parts of a concatenation, read back by slicing. */
  lemma Parts3(s: string, a: string, b: string, c: string)
    requires s == a + b + c
    ensures s[..|a|] == a && s[|a|..|a| + |b|] == b && s[|a| + |b|..] == c
  {
    assert s[..|a|] == a;
    assert s[|a|..|a| + |b|] == b;
    assert s[|a| + |b|..] == c;
  }

  /** `href="u"` inside a line matches where it stands. */
  lemma HrefInside(s: string, pre: string, u: string, post: string)
    requires s == pre + ("href=\"" + u + "\"") + post
    requires u != "" && '"' !in u && '\'' !in u
    ensures HrefAt(s, |pre|) == Some((u, |pre| + 7 + |u|))
    ensures s[|pre|..|pre| + 7 + |u|] == "href=\"" + u + "\""
    ensures s[|pre| + 7 + |u|..] == post
  {
    var h := "href=\"" + u + "\"";
    var p := |pre|;
    Parts3(s, pre, h, post);
    Parts3(h, "href=\"", u, "\"");
    assert s[p..p + 6] == h[..6];
    assert s[p + 6..p + 6 + |u|] == h[6..6 + |u|];
    assert s[p + 6 + |u|] == h[6 + |u|];
    HrefAtQuoted(s, p, u);
  }

  /** A suffix without quotes leaves no quote after `p`. */
  lemma NoQuoteAfter(s: string, p: nat, t: string)
    requires p <= |s| && s[p..] == t
    requires forall k :: 0 <= k < |t| ==> !IsQuote(t[k])
    ensures forall k :: p <= k < |s| ==> !IsQuote(s[k])
  {
    forall k | p <= k < |s| ensures !IsQuote(s[k]) {
      assert s[k] == t[k - p];
    }
  }

  lemma AnchorShape(u: string, e: string)
    ensures HtmlAnchor(u, e) == "<a " + ("href=\"" + u + "\"") + (">" + e + "</a>")
  {
  }

  lemma NoQuoteTail(e: string)
    requires forall k :: 0 <= k < |e| ==> !IsQuote(e[k])
    ensures forall k :: 0 <= k < |">" + e + "</a>"| ==> !IsQuote((">" + e + "</a>")[k])
  {
  }

  /** An anchor line whose text holds no quote has one href match: the attribute. */
  lemma AnchorHrefs(u: string, e: string)
    requires u != "" && '"' !in u && '\'' !in u
    requires forall k :: 0 <= k < |e| ==> !IsQuote(e[k])
    ensures HrefMatches(HtmlAnchor(u, e), 0) == ["href=\"" + u + "\""]
  {
    var line := HtmlAnchor(u, e);
    var tail := ">" + e + "</a>";
    AnchorShape(u, e);
    HrefInside(line, "<a ", u, tail);
    NoQuoteTail(e);
    NoQuoteAfter(line, 10 + |u|, tail);
    NoHrefWithoutQuote(line, 10 + |u|);
    AnchorHrefSkip(u, e);
    var h := "href=\"" + u + "\"";
    assert HrefMatches(line, 3) == [h] + HrefMatches(line, 10 + |u|);
    assert [h] + [] == [h];
  }

  lemma QuotedHref(u: string)
    requires u != "" && '"' !in u && '\'' !in u
    ensures FirstHref("href=\"" + u + "\"", 0) == Some(u)
  {
    var m := "href=\"" + u + "\"";
    assert m[0..6] == "href=\"" && m[6..6 + |u|] == u && m[6 + |u|] == '"';
    HrefAtQuoted(m, 0, u);
  }

  /** The escaped title holds no quote, and no `[` or newline the title does not. */
  lemma EscapedNoQuote(t: string)
    ensures forall k :: 0 <= k < |EscapeForCopy(t)| ==> !IsQuote(EscapeForCopy(t)[k])
    ensures '[' !in t ==> '[' !in EscapeForCopy(t)
    ensures '\n' !in t ==> '\n' !in EscapeForCopy(t)
  {
    EscapeIsPerChar(t);
    EscapedIsInert(t);
  }

  lemma HrefUrlsOne(hm: string)
    ensures HrefUrls([hm]) == OptionList(FirstHref(hm, 0))
  {
    var noMatches: seq<string> := [];
    assert [hm][..0] == noMatches;
  }

  /** An anchor line starts with `<` and ends with `>`. */
  lemma AnchorEnds(u: string, e: string)
    ensures |HtmlAnchor(u, e)| > 0 && HtmlAnchor(u, e)[0] == '<' && HtmlAnchor(u, e)[|HtmlAnchor(u, e)| - 1] == '>'
    ensures !IsPlainUrl(HtmlAnchor(u, e))
  {
    var a := HtmlAnchor(u, e);
    assert a == "<" + (a[1..|a| - 1]) + ">";
    NotStartsWith(a, "http://");
    NotStartsWith(a, "https://");
  }

  lemma HtmlLine(t: string, u: string)
    requires '[' !in t
    requires u != "" && '"' !in u && '\'' !in u && '[' !in u
    ensures LineUrls(HtmlAnchor(u, EscapeForCopy(t))) == [u]
  {
    var e := EscapeForCopy(t);
    EscapedNoQuote(t);
    AnchorEnds(u, e);
    AnchorNoMarkdown(u, e);
    AnchorHrefs(u, e);
    QuotedHref(u);
    HrefUrlsOne("href=\"" + u + "\"");
  }

  lemma PlainExportLine(l: Link)
    requires Exportable(l, Plain)
    ensures FormatLine(Plain, l) != "" && IsTrimmed(FormatLine(Plain, l)) && '\n' !in FormatLine(Plain, l)
    ensures LineUrls(FormatLine(Plain, l)) == [l.url]
  {
  }

  lemma MarkdownExportLine(l: Link)
    requires Exportable(l, Markdown)
    ensures FormatLine(Markdown, l) != "" && IsTrimmed(FormatLine(Markdown, l)) && '\n' !in FormatLine(Markdown, l)
    ensures LineUrls(FormatLine(Markdown, l)) == [l.url]
  {
    var m := MarkdownLink(l.title, l.url);
    assert m[0] == '[' && m[|m| - 1] == ')';
    MarkdownLine(l.title, l.url);
  }

  lemma HtmlExportLine(l: Link)
    requires Exportable(l, Html)
    ensures FormatLine(Html, l) != "" && IsTrimmed(FormatLine(Html, l)) && '\n' !in FormatLine(Html, l)
    ensures LineUrls(FormatLine(Html, l)) == [l.url]
  {
    var e := EscapeForCopy(l.title);
    EscapedNoQuote(l.title);
    AnchorEnds(l.url, e);
    HtmlLine(l.title, l.url);
  }

  /** The line of an exportable link is a well-formed line whose only url is the link's. */
  lemma ExportLine(l: Link, format: Format)
    requires Exportable(l, format)
    ensures FormatLine(format, l) != "" && IsTrimmed(FormatLine(format, l)) && '\n' !in FormatLine(format, l)
    ensures LineUrls(FormatLine(format, l)) == [l.url]
  {
    match format
    case Plain => PlainExportLine(l);
    case Markdown => MarkdownExportLine(l);
    case Html => HtmlExportLine(l);
  }

  /**
   * Pasting what was copied gives the copied urls back, in order, for every
   * format and any number of links.
   */
  lemma ExportRoundTrip(links: seq<Link>, format: Format)
    requires format != Other
    requires forall i :: 0 <= i < |links| ==> Exportable(links[i], format)
    ensures LinksIn(Export(links, format)) == Urls(links)
  {
    var lines := seq(|links|, i requires 0 <= i < |links| => FormatLine(format, links[i]));
    forall i | 0 <= i < |links|
      ensures lines[i] != "" && IsTrimmed(lines[i]) && '\n' !in lines[i]
      ensures LineUrls(lines[i]) == [links[i].url]
    {
      ExportLine(links[i], format);
    }
    LinesOfJoin(lines);
    UrlsOfSingletons(lines, Urls(links));
  }
  /**
   * The line of an exportable link is read back as its url by parseLinks as
   * written too, provided a markdown title has no `(` in it.
   */
  lemma ExportLineAsWritten(l: Link, format: Format)
    requires Exportable(l, format)
    requires format == Markdown ==> '(' !in l.title
    ensures LineUrlsAsWritten(FormatLine(format, l)) == [l.url]
  {
    match format
    case Plain =>
    case Markdown => MarkdownAsWrittenAgrees(l.title, l.url);
    case Html =>
      var e := EscapeForCopy(l.title);
      EscapedNoQuote(l.title);
      AnchorNoMarkdown(l.url, e);
      HtmlExportLine(l);
  }

  /**
   * parseLinks as written reads back every plain and HTML export, and every
   * markdown export whose titles carry no `(`.
   */
  lemma ExportRoundTripAsWritten(links: seq<Link>, format: Format)
    requires format != Other
    requires forall i :: 0 <= i < |links| ==> Exportable(links[i], format)
    requires format == Markdown ==> forall i :: 0 <= i < |links| ==> '(' !in links[i].title
    ensures LinksInAsWritten(Export(links, format)) == Urls(links)
  {
    var lines := seq(|links|, i requires 0 <= i < |links| => FormatLine(format, links[i]));
    forall i | 0 <= i < |links|
      ensures lines[i] != "" && IsTrimmed(lines[i]) && '\n' !in lines[i]
      ensures LineUrlsAsWritten(lines[i]) == [Urls(links)[i]]
    {
      ExportLine(links[i], format);
      ExportLineAsWritten(links[i], format);
    }
    LinesOfJoin(lines);
    UrlsOfSingletonsWith(lines, Urls(links), LineUrlsAsWritten);
  }

  lemma UrlsOfSingletonsWith(lines: seq<string>, urls: seq<string>, f: string -> seq<string>)
    requires |lines| == |urls|
    requires forall i :: 0 <= i < |lines| ==> f(lines[i]) == [urls[i]]
    ensures UrlsOf(lines, f) == urls
  {
    UrlsOfSingletonsUpTo(lines, urls, f, |lines|);
    assert lines[..|lines|] == lines && urls[..|urls|] == urls;
  }
  /**
   * copyLinksToClipboard copies nothing exactly when nothing is selected, and
   * otherwise copies text from which parseLinks, as written, reads back the
   * urls of the selected tabs in window and tab order, provided each selected
   * link is exportable and, for Markdown, its title has no `(`.
   */
  lemma ClipboardRoundTrip(windows: seq<Window>, selected: set<int>, format: Format)
    requires format != Other
    requires forall l :: l in SelectedLinks(windows, selected) ==> Exportable(l, format)
    requires format == Markdown ==> forall l :: l in SelectedLinks(windows, selected) ==> '(' !in l.title
    ensures ClipboardText(windows, selected, format).None? <==> |selected| == 0
    ensures ClipboardText(windows, selected, format).Some? ==>
      LinksInAsWritten(ClipboardText(windows, selected, format).value) == Urls(SelectedLinks(windows, selected))
  {
    var links := SelectedLinks(windows, selected);
    if |selected| > 0 {
      assert forall i :: 0 <= i < |links| ==> links[i] in links;
      ExportRoundTripAsWritten(links, format);
    }
  }

  /** Under the intended reading of markdown links, the copied urls come back with any title free of `]`. */
  lemma ClipboardRoundTripIntended(windows: seq<Window>, selected: set<int>, format: Format)
    requires format != Other
    requires forall l :: l in SelectedLinks(windows, selected) ==> Exportable(l, format)
    ensures ClipboardText(windows, selected, format).Some? ==>
      LinksIn(ClipboardText(windows, selected, format).value) == Urls(SelectedLinks(windows, selected))
  {
    var links := SelectedLinks(windows, selected);
    if |selected| > 0 {
      assert forall i :: 0 <= i < |links| ==> links[i] in links;
      ExportRoundTrip(links, format);
    }
  }
}

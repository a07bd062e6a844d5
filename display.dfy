/**
 * The text a tab row shows: titles and urls with their white space
 * normalised (`cleanText`) and their matched characters wrapped in `<mark>`
 * (`highlightMatches`). The page's HTML escaping, `escapeHtml`, works through
 * the browser's DOM and is a parameter here.
 */
module Display {
  import opened Wrappers
  import opened Text
  import opened Fuzzy

  // ---------------------------------------------------------------------
  // cleanText
  // ---------------------------------------------------------------------

  /** Every white-space character is a plain space, and never next to another one. */
  predicate OneSpaced(s: string) {
    forall i :: 0 <= i < |s| && IsSpace(s[i]) ==> s[i] == ' ' && (i + 1 < |s| ==> !IsSpace(s[i + 1]))
  }

  /** `text.replace(/\s+/g, ' ')`: each run of white space becomes one space. */
  function Collapse(s: string): (r: string)
    ensures |r| <= |s|
    decreases |s|
  {
    if |s| == 0 then ""
    else if IsSpace(s[0]) then
      var rest := TrimStart(s);
      assert rest != s;
      " " + Collapse(rest)
    else [s[0]] + Collapse(s[1..])
  }

  lemma {:induction false} CollapseOneSpace(s: string)
    ensures s != [] ==> Collapse(s) != [] && Collapse(s)[0] == (if IsSpace(s[0]) then ' ' else s[0])
    ensures OneSpaced(Collapse(s))
    decreases |s|
  {
    if s != [] {
      if IsSpace(s[0]) {
        var rest := TrimStart(s);
        assert rest != s;
        CollapseOneSpace(rest);
      } else {
        CollapseOneSpace(s[1..]);
      }
    }
  }

  /** cleanText: the collapsed text, trimmed; no text gives the empty string. */
  function CleanText(text: string): string {
    if text == "" then "" else Trim(Collapse(text))
  }

  lemma OneSpacedSlice(s: string, a: nat, b: nat)
    requires OneSpaced(s) && a <= b <= |s|
    ensures OneSpaced(s[a..b])
  {
    var t := s[a..b];
    forall i | 0 <= i < |t| && IsSpace(t[i])
      ensures t[i] == ' ' && (i + 1 < |t| ==> !IsSpace(t[i + 1]))
    {
      assert t[i] == s[a + i];
      if i + 1 < |t| {
        assert t[i + 1] == s[a + i + 1];
      }
    }
  }

  lemma OneSpacedTrim(s: string)
    requires OneSpaced(s)
    ensures OneSpaced(Trim(s))
  {
    var t := TrimStart(s);
    OneSpacedSlice(s, |s| - |t|, |s|);
    OneSpacedSlice(t, 0, |TrimEnd(t)|);
  }

  /**
   * What cleanText promises: nothing to trim at either end, and inside only
   * single plain spaces.
   */
  lemma CleanTextShape(text: string)
    ensures IsTrimmed(CleanText(text))
    ensures OneSpaced(CleanText(text))
  {
    if text != "" {
      CollapseOneSpace(text);
      OneSpacedTrim(Collapse(text));
    }
  }

  /** Collapsing a string that is already one-spaced changes nothing. */
  lemma {:induction false} CollapseOneSpaced(s: string)
    requires OneSpaced(s)
    ensures Collapse(s) == s
    decreases |s|
  {
    if |s| > 0 {
      OneSpacedSlice(s, 1, |s|);
      if IsSpace(s[0]) {
        assert TrimStart(s) == s[1..] by {
          assert |s| > 1 ==> !IsSpace(s[1]);
        }
      }
      CollapseOneSpaced(s[1..]);
      assert s == [s[0]] + s[1..];
    }
  }

  /** Cleaning clean text changes nothing. */
  lemma CleanTextIdempotent(text: string)
    ensures CleanText(CleanText(text)) == CleanText(text)
  {
    var c := CleanText(text);
    CleanTextShape(text);
    if c != "" {
      CollapseOneSpaced(c);
      TrimOfTrimmed(c);
    }
  }

  // ---------------------------------------------------------------------
  // cleanText against its words
  // ---------------------------------------------------------------------

  /** The end of the word starting at `i`: the first white space at or after it. */
  function WordEnd(s: string, i: nat): (e: nat)
    requires i <= |s|
    ensures i <= e <= |s|
    ensures forall k :: i <= k < e ==> !IsSpace(s[k])
    ensures e < |s| ==> IsSpace(s[e])
    decreases |s| - i
  {
    if i == |s| || IsSpace(s[i]) then i else WordEnd(s, i + 1)
  }

  /** The maximal runs of non-white-space characters, in order. */
  function Words(s: string): seq<string>
    decreases |s|
  {
    var t := TrimStart(s);
    if t == [] then []
    else
      var e := WordEnd(t, 0);
      [t[..e]] + Words(t[e..])
  }

  /** Every word is non-empty and free of white space. */
  lemma {:induction false} WordsAreWords(s: string)
    ensures forall k :: 0 <= k < |Words(s)| ==> Words(s)[k] != "" && IsTrimmed(Words(s)[k])
    decreases |s|
  {
    var t := TrimStart(s);
    if t != [] {
      var e := WordEnd(t, 0);
      var w, rest := t[..e], Words(t[e..]);
      WordsAreWords(t[e..]);
      assert Words(s) == [w] + rest;
      assert e != 0 by { assert !IsSpace(t[0]); }
      assert IsTrimmed(w) by {
        assert w[0] == t[0] && w[e - 1] == t[e - 1];
        assert !IsSpace(t[e - 1]);
      }
      forall k | 0 <= k < |Words(s)| ensures Words(s)[k] != "" && IsTrimmed(Words(s)[k]) {
        if k > 0 {
          assert Words(s)[k] == rest[k - 1];
        }
      }
    }
  }

  predicate AllSpace(s: string) {
    forall k :: 0 <= k < |s| ==> IsSpace(s[k])
  }

  /** A space where the text began with white space, else nothing. */
  function Lead(s: string): string {
    if s != [] && IsSpace(s[0]) then " " else ""
  }

  /** A space where the text, having a word, ends with white space, else nothing. */
  function Trail(s: string): string {
    if Words(s) != [] && IsSpace(s[|s| - 1]) then " " else ""
  }

  lemma {:induction false} CollapseWord(w: string, rest: string)
    requires forall k :: 0 <= k < |w| ==> !IsSpace(w[k])
    ensures Collapse(w + rest) == w + Collapse(rest)
    decreases |w|
  {
    if |w| > 0 {
      var s, u := w + rest, w[1..];
      assert s[0] == w[0];
      assert Collapse(s) == [w[0]] + Collapse(s[1..]);
      assert s[1..] == u + rest;
      CollapseWord(u, rest);
      Assoc([w[0]], u, Collapse(rest));
      assert [w[0]] + u == w;
    } else {
      EmptyFirst(w, rest);
      EmptyFirst(w, Collapse(rest));
    }
  }

  lemma AllSpaceWords(s: string)
    requires AllSpace(s)
    ensures Words(s) == []
  {
  }

  lemma TrimStartNoSpace(s: string)
    requires s == [] || !IsSpace(s[0])
    ensures TrimStart(s) == s
  {
  }

  /** Collapsing a text whose first character is white space. */
  lemma CollapseSpaceFirst(s: string)
    requires s != [] && IsSpace(s[0])
    requires var t := TrimStart(s); Collapse(t) == Lead(t) + Join(Words(t), ' ') + Trail(t)
    ensures Collapse(s) == Lead(s) + Join(Words(s), ' ') + Trail(s)
  {
    var t := TrimStart(s);
    TrimStartNoSpace(t);
    assert Lead(t) == "";
    EmptyFirst(Lead(t), Join(Words(t), ' ') + Trail(t));
    Assoc(Lead(t), Join(Words(t), ' '), Trail(t));
    assert Collapse(s) == " " + Collapse(t);
    assert Lead(s) == " ";
    assert Words(s) == Words(t);
    assert Trail(s) == Trail(t) by {
      if t != [] {
        assert t[|t| - 1] == s[|s| - 1];
      }
    }
    Assoc(" ", Join(Words(t), ' '), Trail(t));
  }

  /** Collapsing a text that starts with a word running to its end. */
  lemma CollapseLastWord(s: string)
    requires s != [] && !IsSpace(s[0]) && WordEnd(s, 0) == |s|
    ensures Collapse(s) == Lead(s) + Join(Words(s), ' ') + Trail(s)
  {
    CollapseWord(s, "");
    assert s + "" == s;
    WordsOfOneWord(s);
    TrailOfOneWord(s);
    assert Lead(s) == "";
    assert Join([s], ' ') == s;
    EmptyFirst(Lead(s), s);
  }

  lemma WordsOfOneWord(s: string)
    requires s != [] && !IsSpace(s[0]) && WordEnd(s, 0) == |s|
    ensures Words(s) == [s]
  {
    WordsWordFirst(s);
    NoWords(s[WordEnd(s, 0)..]);
    WholePrefix(s, WordEnd(s, 0));
    OneThenNothing(Words(s), s[..WordEnd(s, 0)], Words(s[WordEnd(s, 0)..]));
  }

  lemma WholePrefix(s: string, e: nat)
    requires e == |s|
    ensures s[..e] == s
  {
  }

  lemma OneThenNothing(ws: seq<string>, w: string, rest: seq<string>)
    requires ws == [w] + rest && rest == []
    ensures ws == [w]
  {
  }

  lemma NoWords(s: string)
    requires |s| == 0
    ensures Words(s) == []
  {
    assert TrimStart(s) == [];
  }

  lemma TrailOfOneWord(s: string)
    requires s != [] && WordEnd(s, 0) == |s|
    ensures Trail(s) == ""
  {
    assert !IsSpace(s[|s| - 1]);
  }

  /** The words of a text that starts with a word `w`: `w`, then the words after it. */
  lemma WordsWordFirst(s: string)
    requires s != [] && !IsSpace(s[0])
    ensures Words(s) == [s[..WordEnd(s, 0)]] + Words(s[WordEnd(s, 0)..])
  {
    TrimStartNoSpace(s);
  }

  /** Collapsing a text that starts with a word `w` keeps `w`. */
  lemma CollapseWordPrefix(s: string)
    requires s != [] && !IsSpace(s[0])
    ensures Collapse(s) == s[..WordEnd(s, 0)] + Collapse(s[WordEnd(s, 0)..])
  {
    var e := WordEnd(s, 0);
    assert s == s[..e] + s[e..];
    CollapseWord(s[..e], s[e..]);
  }

  lemma JoinCons(w: string, ws: seq<string>)
    requires ws != []
    ensures Join([w] + ws, ' ') == w + " " + Join(ws, ' ')
  {
    assert ([w] + ws)[0] == w && ([w] + ws)[1..] == ws;
  }

  lemma JoinOne(w: string)
    ensures Join([w], ' ') == w
  {
  }

  lemma Pad3(a: string, b: string, c: string)
    requires b == "" && c == ""
    ensures a + b + c == a
  {
  }

  lemma RegroupBlank(c: string, w: string, cr: string, lead: string, trail: string)
    requires c == w + cr && cr == " " && lead == "" && trail == " "
    ensures c == lead + w + trail
  {
  }

  /** The string algebra behind the word-first case. */
  lemma Regroup(c: string, w: string, cr: string, j: string, t: string, lead: string)
    requires c == w + cr && cr == " " + j + t && lead == ""
    ensures c == lead + (w + " " + j) + t
  {
    Assoc(w, " " + j, t);
    Assoc(w, " ", j);
    Assoc(lead, w + " " + j, t);
    EmptyFirst(lead, w + " " + j + t);
  }

  lemma TrailWordFirst(s: string)
    requires s != [] && !IsSpace(s[0])
    ensures Trail(s) == (if IsSpace(s[|s| - 1]) then " " else "")
  {
    WordsWordFirst(s);
  }

  lemma BlankEndsInSpace(r: string)
    requires r != [] && Words(r) == []
    ensures IsSpace(r[|r| - 1])
  {
    assert TrimStart(r) == [];
  }

  /** The trailing space of a text that starts with a word and then has more. */
  lemma TrailAfterWord(s: string)
    requires s != [] && !IsSpace(s[0]) && WordEnd(s, 0) < |s|
    ensures Trail(s) == (if Words(s[WordEnd(s, 0)..]) == [] then " " else Trail(s[WordEnd(s, 0)..]))
  {
    var rest := s[WordEnd(s, 0)..];
    TrailWordFirst(s);
    assert rest[|rest| - 1] == s[|s| - 1];
    if Words(rest) == [] {
      BlankEndsInSpace(rest);
    }
  }

  lemma TrimStartShorter(s: string)
    requires s != [] && IsSpace(s[0])
    ensures |TrimStart(s)| < |s|
  {
  }

  /** Collapsing a text that starts with a word followed by white space. */
  lemma CollapseWordFirst(s: string)
    requires s != [] && !IsSpace(s[0]) && WordEnd(s, 0) < |s|
    requires var rest := s[WordEnd(s, 0)..];
      Collapse(rest) == Lead(rest) + Join(Words(rest), ' ') + Trail(rest)
    ensures Collapse(s) == Lead(s) + Join(Words(s), ' ') + Trail(s)
  {
    var e := WordEnd(s, 0);
    var w, rest := s[..e], s[e..];
    WordsWordFirst(s);
    CollapseWordPrefix(s);
    TrailAfterWord(s);
    assert Lead(rest) == " ";
    if Words(rest) == [] {
      OneThenNothing(Words(s), w, Words(rest));
      JoinOne(w);
      assert Trail(rest) == "" && Join(Words(rest), ' ') == "";
      Pad3(" ", Join(Words(rest), ' '), Trail(rest));
      RegroupBlank(Collapse(s), w, Collapse(rest), Lead(s), Trail(s));
    } else {
      JoinCons(w, Words(rest));
      Regroup(Collapse(s), w, Collapse(rest), Join(Words(rest), ' '), Trail(rest), Lead(s));
    }
  }

  lemma CollapseNothing()
    ensures Collapse("") == Lead("") + Join(Words(""), ' ') + Trail("")
  {
    assert Words("") == [];
  }

  /** Collapse keeps every word and puts one space wherever white space was. */
  lemma {:induction false} CollapseWords(s: string)
    ensures Collapse(s) == Lead(s) + Join(Words(s), ' ') + Trail(s)
    decreases |s|
  {
    if s == [] {
      CollapseNothing();
    } else if IsSpace(s[0]) {
      TrimStartShorter(s);
      CollapseWords(TrimStart(s));
      CollapseSpaceFirst(s);
    } else if WordEnd(s, 0) == |s| {
      CollapseLastWord(s);
    } else {
      CollapseWords(s[WordEnd(s, 0)..]);
      CollapseWordFirst(s);
    }
  }

  lemma {:induction false} TrimStartAfterSpaces(p: string, x: string)
    requires AllSpace(p)
    requires x == [] || !IsSpace(x[0])
    ensures TrimStart(p + x) == x
  {
    if |p| > 0 {
      assert (p + x)[1..] == p[1..] + x;
      TrimStartAfterSpaces(p[1..], x);
    } else {
      assert p + x == x;
    }
  }

  lemma {:induction false} TrimEndBeforeSpaces(x: string, q: string)
    requires AllSpace(q)
    requires x == [] || !IsSpace(x[|x| - 1])
    ensures TrimEnd(x + q) == x
  {
    if |q| > 0 {
      assert (x + q)[..|x + q| - 1] == x + q[..|q| - 1];
      TrimEndBeforeSpaces(x, q[..|q| - 1]);
    } else {
      assert x + q == x;
    }
  }

  /** Trimming white space from around a trimmed string. */
  lemma TrimPadded(p: string, j: string, q: string)
    requires AllSpace(p) && AllSpace(q) && IsTrimmed(j)
    ensures Trim(p + j + q) == j
  {
    if j == [] {
      assert p + j + q == p + q;
      assert AllSpace(p + q);
      TrimStartAfterSpaces(p + q, []);
      assert p + q + [] == p + q;
    } else {
      assert p + j + q == p + (j + q);
      TrimStartAfterSpaces(p, j + q);
      TrimEndBeforeSpaces(j, q);
    }
  }

  /**
   * cleanText is the text's words joined by single spaces, the same as
   * splitting on white space, dropping empty pieces and joining with `' '`.
   */
  lemma CleanTextIsWords(text: string)
    ensures CleanText(text) == Join(Words(text), ' ')
  {
    if text == "" {
      assert TrimStart(text) == [];
    } else {
      WordsAreWords(text);
      JoinTrimmed(Words(text), ' ');
      CollapseWords(text);
      PadsAreSpace(text);
      TrimPadded(Lead(text), Join(Words(text), ' '), Trail(text));
    }
  }

  lemma PadsAreSpace(s: string)
    ensures AllSpace(Lead(s)) && AllSpace(Trail(s))
  {
    assert IsSpace(' ');
  }

  // ---------------------------------------------------------------------
  // highlightMatches
  // ---------------------------------------------------------------------

  predicate IndicesIn(indices: seq<nat>, text: string) {
    forall k :: 0 <= k < |indices| ==> indices[k] < |text|
  }

  function MarkChar(c: char, escapeHtml: string -> string): string {
    "<mark>" + escapeHtml([c]) + "</mark>"
  }

  /** What the loop appends from `lastIndex` on, for the indices still to come. */
  function Highlighted(text: string, indices: seq<nat>, lastIndex: nat, escapeHtml: string -> string): string
    requires lastIndex <= |text| && IndicesIn(indices, text)
    decreases |indices|
  {
    if |indices| == 0 then
      (if lastIndex < |text| then escapeHtml(text[lastIndex..]) else "")
    else
      var idx := indices[0];
      (if idx > lastIndex then escapeHtml(text[lastIndex..idx]) else "")
        + MarkChar(text[idx], escapeHtml)
        + Highlighted(text, indices[1..], idx + 1, escapeHtml)
  }

  /** highlightMatches: without indices the whole text is escaped as one piece. */
  function Highlight(text: string, indices: seq<nat>, escapeHtml: string -> string): string
    requires IndicesIn(indices, text)
  {
    if |indices| == 0 then escapeHtml(text) else Highlighted(text, indices, 0, escapeHtml)
  }

  lemma Assoc(a: string, b: string, c: string)
    ensures a + (b + c) == a + b + c
  {
  }

  lemma EmptyFirst(a: string, b: string)
    requires a == ""
    ensures a + b == b
  {
  }

  /** One index's worth of the loop: the gap before it, its mark, then the rest. */
  lemma HighlightedStep(text: string, indices: seq<nat>, i: nat, lastIndex: nat, escapeHtml: string -> string)
    requires i < |indices| && lastIndex <= |text| && IndicesIn(indices, text)
    ensures var idx := indices[i];
      Highlighted(text, indices[i..], lastIndex, escapeHtml)
        == (if idx > lastIndex then escapeHtml(text[lastIndex..idx]) else "") + MarkChar(text[idx], escapeHtml)
          + Highlighted(text, indices[i + 1..], idx + 1, escapeHtml)
  {
    assert indices[i..][1..] == indices[i + 1..];
  }

  /** The loop invariant survives one index. */
  lemma HighlightLoopStep(text: string, indices: seq<nat>, i: nat, lastIndex: nat, escapeHtml: string -> string, result: string)
    requires i < |indices| && lastIndex <= |text| && IndicesIn(indices, text)
    requires result + Highlighted(text, indices[i..], lastIndex, escapeHtml) == Highlighted(text, indices, 0, escapeHtml)
    ensures var idx := indices[i];
      var gap := if idx > lastIndex then escapeHtml(text[lastIndex..idx]) else "";
      result + gap + MarkChar(text[idx], escapeHtml) + Highlighted(text, indices[i + 1..], idx + 1, escapeHtml)
        == Highlighted(text, indices, 0, escapeHtml)
  {
    HighlightedStep(text, indices, i, lastIndex, escapeHtml);
    Regroup4(result, if indices[i] > lastIndex then escapeHtml(text[lastIndex..indices[i]]) else "",
      MarkChar(text[indices[i]], escapeHtml), Highlighted(text, indices[i + 1..], indices[i] + 1, escapeHtml),
      Highlighted(text, indices[i..], lastIndex, escapeHtml), Highlighted(text, indices, 0, escapeHtml));
  }

  lemma Regroup4(result: string, gap: string, mark: string, rest: string, h: string, x: string)
    requires h == gap + mark + rest && result + h == x
    ensures result + gap + mark + rest == x
  {
    Assoc(result, gap + mark, rest);
    Assoc(result, gap, mark);
  }

  method HighlightMatches(text: string, indices: seq<nat>, escapeHtml: string -> string) returns (result: string)
    requires IndicesIn(indices, text)
    ensures result == Highlight(text, indices, escapeHtml)
  {
    if |indices| == 0 {
      return escapeHtml(text);
    }
    result := "";
    var lastIndex := 0;
    var i := 0;
    HighlightLoopStart(text, indices, escapeHtml);
    while i < |indices|
      invariant 0 <= i <= |indices|
      invariant lastIndex <= |text|
      invariant result + Highlighted(text, indices[i..], lastIndex, escapeHtml)
        == Highlighted(text, indices, 0, escapeHtml)
    {
      var idx := indices[i];
      HighlightLoopStep(text, indices, i, lastIndex, escapeHtml, result);
      var gap := "";
      if idx > lastIndex {
        gap := escapeHtml(text[lastIndex..idx]);
      }
      result := result + gap + MarkChar(text[idx], escapeHtml);
      lastIndex := idx + 1;
      i := i + 1;
    }
    HighlightLoopEnd(text, indices, i, lastIndex, escapeHtml, result);
    if lastIndex < |text| {
      result := result + escapeHtml(text[lastIndex..]);
    }
  }

  /** After the last index the loop appends the rest of the text, if any. */
  lemma HighlightLoopEnd(text: string, indices: seq<nat>, i: nat, lastIndex: nat, escapeHtml: string -> string, result: string)
    requires i == |indices| > 0 && lastIndex <= |text| && IndicesIn(indices, text)
    requires result + Highlighted(text, indices[i..], lastIndex, escapeHtml) == Highlighted(text, indices, 0, escapeHtml)
    ensures (if lastIndex < |text| then result + escapeHtml(text[lastIndex..]) else result) == Highlight(text, indices, escapeHtml)
  {
    var none: seq<nat> := [];
    assert indices[i..] == none;
    if lastIndex >= |text| {
      assert result + "" == result;
    }
  }

  /** Before the first index nothing has been appended. */
  lemma HighlightLoopStart(text: string, indices: seq<nat>, escapeHtml: string -> string)
    requires IndicesIn(indices, text)
    ensures "" + Highlighted(text, indices[0..], 0, escapeHtml) == Highlighted(text, indices, 0, escapeHtml)
  {
    assert indices[0..] == indices;
    EmptyFirst("", Highlighted(text, indices, 0, escapeHtml));
  }

  /** The first marked position at or after `from`, or the end of the text. */
  function NextMark(text: string, marks: set<nat>, from: nat): (e: nat)
    requires from <= |text|
    ensures from <= e <= |text|
    ensures forall k :: from <= k < e ==> k !in marks
    ensures e < |text| ==> e in marks
    decreases |text| - from
  {
    if from == |text| || from in marks then from else NextMark(text, marks, from + 1)
  }

  /**
   * The reference rendering, character by character: each marked character in
   * its own `<mark>`, each maximal run of unmarked characters escaped as one piece.
   */
  function Rendered(text: string, marks: set<nat>, from: nat, escapeHtml: string -> string): string
    requires from <= |text|
    decreases |text| - from
  {
    if from == |text| then ""
    else if from in marks then MarkChar(text[from], escapeHtml) + Rendered(text, marks, from + 1, escapeHtml)
    else
      var e := NextMark(text, marks, from);
      escapeHtml(text[from..e]) + Rendered(text, marks, e, escapeHtml)
  }

  /** The rendering from `from` on depends only on the marks from `from` on. */
  lemma {:induction false} RenderedFrom(text: string, m1: set<nat>, m2: set<nat>, from: nat, escapeHtml: string -> string)
    requires from <= |text|
    requires forall k :: from <= k < |text| ==> (k in m1 <==> k in m2)
    ensures Rendered(text, m1, from, escapeHtml) == Rendered(text, m2, from, escapeHtml)
    decreases |text| - from
  {
    if from < |text| {
      if from in m1 {
        RenderedFrom(text, m1, m2, from + 1, escapeHtml);
      } else {
        var e := NextMark(text, m1, from);
        assert NextMark(text, m2, from) == e;
        RenderedFrom(text, m1, m2, e, escapeHtml);
      }
    }
  }

  function Marks(indices: seq<nat>): (r: set<nat>)
    ensures forall k :: k in r <==> k in indices
  {
    set k | k in indices
  }

  lemma RenderedUnmarked(text: string, marks: set<nat>, from: nat, escapeHtml: string -> string)
    requires from < |text|
    requires forall k :: from <= k < |text| ==> k !in marks
    ensures Rendered(text, marks, from, escapeHtml) == escapeHtml(text[from..])
  {
    assert from !in marks;
    assert NextMark(text, marks, from) == |text|;
    assert text[from..|text|] == text[from..];
    assert Rendered(text, marks, from, escapeHtml)
      == escapeHtml(text[from..|text|]) + Rendered(text, marks, |text|, escapeHtml);
  }

  /** Past the first of increasing indices, the marks are those of the rest. */
  lemma MarksAfterFirst(indices: seq<nat>)
    requires Increasing(indices) && |indices| > 0
    ensures forall k :: indices[0] + 1 <= k ==> (k in Marks(indices) <==> k in Marks(indices[1..]))
  {
    forall k | indices[0] + 1 <= k ensures k in Marks(indices) <==> k in Marks(indices[1..]) {
      if k in Marks(indices) {
        var j :| 0 <= j < |indices| && indices[j] == k;
        assert j != 0;
        assert indices[1..][j - 1] == k;
      }
    }
  }

  /** Before the first of increasing indices, nothing is marked. */
  lemma MarksBeforeFirst(indices: seq<nat>)
    requires Increasing(indices) && |indices| > 0
    ensures indices[0] in Marks(indices)
    ensures forall k :: k < indices[0] ==> k !in Marks(indices)
  {
    assert indices[0] in indices;
    forall k | k < indices[0] ensures k !in Marks(indices) {
      forall j | 0 <= j < |indices| ensures indices[j] != k {
        assert j == 0 || indices[0] < indices[j];
      }
    }
  }

  /** An unmarked run up to a mark is escaped as one piece. */
  lemma RenderedGap(text: string, marks: set<nat>, from: nat, idx: nat, escapeHtml: string -> string)
    requires from < idx <= |text|
    requires forall k :: from <= k < idx ==> k !in marks
    requires idx < |text| ==> idx in marks
    ensures Rendered(text, marks, from, escapeHtml) == escapeHtml(text[from..idx]) + Rendered(text, marks, idx, escapeHtml)
  {
    assert from !in marks;
    assert NextMark(text, marks, from) == idx;
  }

  /** A marked character gets its own `<mark>`. */
  lemma RenderedMark(text: string, marks: set<nat>, idx: nat, escapeHtml: string -> string)
    requires idx < |text| && idx in marks
    ensures Rendered(text, marks, idx, escapeHtml) == MarkChar(text[idx], escapeHtml) + Rendered(text, marks, idx + 1, escapeHtml)
  {
  }

  /** From the first marked index on, the reference renders the first mark and then the rest. */
  lemma RenderedFirstMark(text: string, indices: seq<nat>, escapeHtml: string -> string)
    requires IndicesIn(indices, text) && |indices| > 0 && Increasing(indices)
    ensures Rendered(text, Marks(indices), indices[0], escapeHtml)
      == MarkChar(text[indices[0]], escapeHtml) + Rendered(text, Marks(indices[1..]), indices[0] + 1, escapeHtml)
  {
    var idx := indices[0];
    MarksAfterFirst(indices);
    MarksBeforeFirst(indices);
    RenderedFrom(text, Marks(indices), Marks(indices[1..]), idx + 1, escapeHtml);
    RenderedMark(text, Marks(indices), idx, escapeHtml);
  }

  /** One step of the loop against the reference: the gap before `idx`, then `idx` itself. */
  lemma RenderedStep(text: string, indices: seq<nat>, lastIndex: nat, escapeHtml: string -> string)
    requires lastIndex <= |text| && IndicesIn(indices, text) && |indices| > 0
    requires Increasing(indices) && lastIndex <= indices[0]
    ensures Rendered(text, Marks(indices), lastIndex, escapeHtml)
      == (if indices[0] > lastIndex then escapeHtml(text[lastIndex..indices[0]]) else "")
        + MarkChar(text[indices[0]], escapeHtml)
        + Rendered(text, Marks(indices[1..]), indices[0] + 1, escapeHtml)
  {
    var idx := indices[0];
    var mark, after := MarkChar(text[idx], escapeHtml), Rendered(text, Marks(indices[1..]), idx + 1, escapeHtml);
    RenderedFirstMark(text, indices, escapeHtml);
    if idx > lastIndex {
      MarksBeforeFirst(indices);
      RenderedGap(text, Marks(indices), lastIndex, idx, escapeHtml);
      Assoc(escapeHtml(text[lastIndex..idx]), mark, after);
    } else {
      EmptyFirst("", mark + after);
    }
  }

  lemma IncreasingTail(indices: seq<nat>, text: string)
    requires |indices| > 0 && Increasing(indices) && IndicesIn(indices, text)
    ensures Increasing(indices[1..]) && IndicesIn(indices[1..], text)
    ensures |indices| > 1 ==> indices[0] < indices[1..][0]
  {
    var rest := indices[1..];
    forall i, j | 0 <= i < j < |rest| ensures rest[i] < rest[j] {
      assert rest[i] == indices[i + 1] && rest[j] == indices[j + 1];
    }
    forall i | 0 <= i < |rest| ensures rest[i] < |text| {
      assert rest[i] == indices[i + 1];
    }
  }

  /** With increasing indices, the loop's output is the reference rendering. */
  lemma {:induction false} HighlightedIsRendered(text: string, indices: seq<nat>, lastIndex: nat, escapeHtml: string -> string)
    requires lastIndex <= |text| && IndicesIn(indices, text)
    requires Increasing(indices) && (|indices| > 0 ==> lastIndex <= indices[0])
    ensures Highlighted(text, indices, lastIndex, escapeHtml) == Rendered(text, Marks(indices), lastIndex, escapeHtml)
    decreases |indices|
  {
    if |indices| == 0 {
      if lastIndex < |text| {
        RenderedUnmarked(text, Marks(indices), lastIndex, escapeHtml);
      }
    } else {
      RenderedStep(text, indices, lastIndex, escapeHtml);
      IncreasingTail(indices, text);
      HighlightedIsRendered(text, indices[1..], indices[0] + 1, escapeHtml);
    }
  }

  /**
   * highlightMatches on increasing indices inside the text, as fuzzyMatch
   * produces: every index marked on its own, everything else escaped in maximal
   * runs; only an empty text without indices differs, escaping the empty string.
   */
  lemma HighlightIsRendered(text: string, indices: seq<nat>, escapeHtml: string -> string)
    requires IndicesIn(indices, text) && Increasing(indices)
    ensures text != "" || indices != [] ==>
      Highlight(text, indices, escapeHtml) == Rendered(text, Marks(indices), 0, escapeHtml)
  {
    if |indices| == 0 {
      if text != "" {
        RenderedUnmarked(text, Marks(indices), 0, escapeHtml);
        assert text[0..] == text;
      }
    } else {
      HighlightedIsRendered(text, indices, 0, escapeHtml);
    }
  }

  /**
   * For a field that cleanText leaves as it is, the positions a successful
   * fuzzy match reports are within the text the row highlights, and mark
   * exactly those characters.
   */
  lemma FuzzyIndicesHighlight(text: string, query: string, escapeHtml: string -> string)
    requires Match(text, query).Some?
    requires CleanText(text) == text
    ensures IndicesIn(Match(text, query).value.indices, text)
    ensures var idx := Match(text, query).value.indices;
      text != "" || idx != [] ==> Highlight(text, idx, escapeHtml) == Rendered(text, Marks(idx), 0, escapeHtml)
  {
    MatchPositions(text, query);
    HighlightIsRendered(text, Match(text, query).value.indices, escapeHtml);
  }
  // ---------------------------------------------------------------------
  // The highlighted field of a tab row
  // ---------------------------------------------------------------------

  /** The indices a fuzzy search reports for one field: those of its match, or none. */
  function MatchedIndices(field: string, query: string): seq<nat> {
    var m := Match(field, query);
    if m.Some? then m.value.indices else []
  }

  /**
   * A tab row's field as written: the indices come from matching the raw
   * title or url, and are applied to its cleaned form. None where an index
   * falls outside the cleaned text, which the model does not follow.
   */
  function RowHighlightAsWritten(field: string, query: string, escapeHtml: string -> string): Option<string> {
    var t := CleanText(field);
    var idx := MatchedIndices(field, query);
    if IndicesIn(idx, t) then Some(Highlight(t, idx, escapeHtml)) else None
  }

  /** The intended row: match the cleaned field, and highlight the positions found there. */
  function RowHighlight(field: string, query: string, escapeHtml: string -> string): string {
    var t := CleanText(field);
    var idx := MatchedIndices(t, query);
    if IndicesIn(idx, t) then Highlight(t, idx, escapeHtml) else escapeHtml(t)
  }

  /**
   * The intended row marks, in order, characters of the shown text that are
   * the query's characters, and escapes everything else.
   */
  lemma RowHighlightMarksMatches(field: string, query: string, escapeHtml: string -> string)
    requires Match(CleanText(field), query).Some?
    ensures var t, idx := CleanText(field), MatchedIndices(CleanText(field), query);
      && |idx| == |query| && Increasing(idx)
      && (forall k :: 0 <= k < |idx| ==> idx[k] < |t| && Lower(t)[idx[k]] == Lower(query)[k])
      && (t != "" || idx != [] ==> RowHighlight(field, query, escapeHtml) == Rendered(t, Marks(idx), 0, escapeHtml))
  {
    var t := CleanText(field);
    MatchPositions(t, query);
    HighlightIsRendered(t, Match(t, query).value.indices, escapeHtml);
  }

  /** For a field that cleanText does not change, the row as written is the intended one. */
  lemma RowAsWrittenAgreesWhenClean(field: string, query: string, escapeHtml: string -> string)
    requires CleanText(field) == field
    ensures RowHighlightAsWritten(field, query, escapeHtml) == Some(RowHighlight(field, query, escapeHtml))
  {
    if Match(field, query).Some? {
      MatchPositions(field, query);
    }
  }

  /**
   * A title ` ab` searched for `a`: the match is at position 1 of the raw
   * title, the row shows `ab`, and as written it marks the `b`; the intended
   * row marks the `a`.
   */
  lemma RawIndicesMisplaced(escapeHtml: string -> string)
    ensures MatchedIndices(" ab", "a") == [1] && CleanText(" ab") == "ab"
    ensures RowHighlightAsWritten(" ab", "a", escapeHtml) == Some(escapeHtml("a") + MarkChar('b', escapeHtml))
    ensures RowHighlight(" ab", "a", escapeHtml) == MarkChar('a', escapeHtml) + escapeHtml("b")
  {
    PaddedMatch();
    PlainMatch();
    CleanPadded();
    HighlightSecond(escapeHtml);
    HighlightFirst(escapeHtml);
  }

  lemma PaddedMatch()
    ensures MatchedIndices(" ab", "a") == [1]
  {
    LowerOfLowercase(" ab");
    LowerOfLowercase("a");
    assert Scan(" ab", "a", 2, 1) == [];
    assert Scan(" ab", "a", 1, 0) == [1];
    assert Scan(" ab", "a", 0, 0) == [1];
  }

  lemma PlainMatch()
    ensures MatchedIndices("ab", "a") == [0]
  {
    LowerOfLowercase("ab");
    LowerOfLowercase("a");
    assert Scan("ab", "a", 1, 1) == [];
    assert Scan("ab", "a", 0, 0) == [0];
  }

  lemma CleanPadded()
    ensures CleanText(" ab") == "ab"
  {
    CollapseAb();
    TrimStartPadded();
    assert Collapse(" ab") == " ab";
    assert TrimEnd("ab") == "ab";
  }

  lemma CollapseAb()
    ensures Collapse(" ab") == " ab"
  {
    TrimStartPadded();
    CollapseSpaceHead(" ab");
    CollapseWordHead("ab");
    CollapseWordHead("b");
    assert "ab"[1..] == "b" && "b"[1..] == "";
  }

  lemma CollapseSpaceHead(s: string)
    requires |s| > 0 && IsSpace(s[0])
    ensures Collapse(s) == " " + Collapse(TrimStart(s))
  {
  }

  lemma CollapseWordHead(s: string)
    requires |s| > 0 && !IsSpace(s[0])
    ensures Collapse(s) == [s[0]] + Collapse(s[1..])
  {
  }

  lemma TrimStartPadded()
    ensures TrimStart(" ab") == "ab"
  {
    assert " ab"[1..] == "ab";
    assert !IsSpace('a');
    assert TrimStart("ab") == "ab";
  }

  lemma HighlightSecond(escapeHtml: string -> string)
    ensures IndicesIn([1], "ab") && Highlight("ab", [1], escapeHtml) == escapeHtml("a") + MarkChar('b', escapeHtml)
  {
    assert "ab"[0..1] == "a";
    assert Highlighted("ab", [], 2, escapeHtml) == "";
  }

  lemma HighlightFirst(escapeHtml: string -> string)
    ensures IndicesIn([0], "ab") && Highlight("ab", [0], escapeHtml) == MarkChar('a', escapeHtml) + escapeHtml("b")
  {
    assert "ab"[1..] == "b";
    assert Highlighted("ab", [], 1, escapeHtml) == escapeHtml("b");
  }
}

/**
 * The data half of `renderWindows` and the counts of `updateSearchCount`:
 * which tabs and windows a filter keeps, their scores, their order, and the
 * set `searchResults` of matched tab ids.
 */
module Ranking {
  import opened Wrappers
  import opened Text
  import opened Inventory
  import opened Fuzzy
  import opened StableSort

  /** One entry of `matchingTabs`. */
  datatype TabEntry = TabEntry(tab: Tab, tabIndex: nat, score: real, titleIndices: seq<nat>, urlIndices: seq<nat>)

  /** One entry of `windowsWithMatches`. */
  datatype WindowEntry = WindowEntry(window: Window, windowIndex: nat, matchingTabs: seq<TabEntry>, bestScore: real)

  function TabScore(e: TabEntry): real { e.score }

  function WindowScore(e: WindowEntry): real { e.bestScore }

  function ScoreOf(m: Option<MatchResult>): Option<real> {
    match m
    case Some(r) => Some(r.score)
    case None => None
  }

  function IndicesOf(m: Option<MatchResult>): seq<nat> {
    match m
    case Some(r) => r.indices
    case None => []
  }

  /**
   * `Math.max(a ?? -Infinity, b ?? -Infinity)` when at least one score is
   * present: the larger of the present scores.
   */
  function BestOf(a: Option<real>, b: Option<real>): (r: real)
    requires a.Some? || b.Some?
    ensures a.Some? ==> a.value <= r
    ensures b.Some? ==> b.value <= r
    ensures (a.Some? && r == a.value) || (b.Some? && r == b.value)
  {
    if a.None? then b.value
    else if b.None? then a.value
    else if a.value >= b.value then a.value else b.value
  }

  /** `Math.max(...entries.map(t => t.score))` for a non-empty list. */
  function MaxScore(es: seq<TabEntry>): (r: real)
    requires |es| > 0
    ensures exists k :: 0 <= k < |es| && es[k].score == r
    ensures forall k :: 0 <= k < |es| ==> es[k].score <= r
  {
    if |es| == 1 then es[0].score
    else
      var m := MaxScore(es[..|es| - 1]);
      assert forall k :: 0 <= k < |es| - 1 ==> es[..|es| - 1][k] == es[k];
      if es[|es| - 1].score > m then es[|es| - 1].score else m
  }

  /** A tab the filter keeps: its title or url matches (fuzzy or substring), ignoring case. */
  ghost predicate TabMatches(tab: Tab, filter: string, fuzzy: bool) {
    if fuzzy then IsSubsequence(Lower(filter), Lower(tab.title)) || IsSubsequence(Lower(filter), Lower(tab.url))
    else Contains(Lower(tab.title), Lower(filter)) || Contains(Lower(tab.url), Lower(filter))
  }

  /** The entry pushed for `tab` at position `tabIndex`, or none when it is skipped. */
  function EntryFor(tab: Tab, tabIndex: nat, filter: string, fuzzy: bool): (r: Option<TabEntry>)
    ensures r.Some? ==> r.value.tab == tab && r.value.tabIndex == tabIndex
  {
    if filter == "" then Some(TabEntry(tab, tabIndex, 0.0, [], []))
    else if fuzzy then
      var tm, um := Match(tab.title, filter), Match(tab.url, filter);
      if tm.Some? || um.Some? then
        Some(TabEntry(tab, tabIndex, BestOf(ScoreOf(tm), ScoreOf(um)), IndicesOf(tm), IndicesOf(um)))
      else None
    else if Contains(Lower(tab.title), Lower(filter)) || Contains(Lower(tab.url), Lower(filter)) then
      Some(TabEntry(tab, tabIndex, 0.0, [], []))
    else None
  }

  function OptSeq<T>(o: Option<T>): seq<T> {
    match o
    case Some(x) => [x]
    case None => []
  }

  /** The values `f` keeps over the first `n` items of `xs`, in order: the shape of a loop that pushes some of its items. */
  function Kept<A, B>(xs: seq<A>, n: nat, f: (A, nat) -> Option<B>): seq<B>
    requires n <= |xs|
  {
    if n == 0 then [] else Kept(xs, n - 1, f) + OptSeq(f(xs[n - 1], n - 1))
  }

  lemma KeptStep<A, B>(xs: seq<A>, n: nat, f: (A, nat) -> Option<B>)
    requires n < |xs|
    ensures Kept(xs, n + 1, f) == Kept(xs, n, f) + OptSeq(f(xs[n], n))
  {
  }

  /** The `matchingTabs` collected over the first `n` tabs. */
  function Entries(tabs: seq<Tab>, n: nat, filter: string, fuzzy: bool): seq<TabEntry>
    requires n <= |tabs|
  {
    Kept(tabs, n, (t: Tab, k: nat) => EntryFor(t, k, filter, fuzzy))
  }

  /** The ids added to `searchResults` over the first `n` tabs. */
  function MatchedIds(tabs: seq<Tab>, n: nat, filter: string, fuzzy: bool): set<int>
    requires n <= |tabs|
  {
    if n == 0 then {}
    else
      MatchedIds(tabs, n - 1, filter, fuzzy) +
        (if filter != "" && EntryFor(tabs[n - 1], n - 1, filter, fuzzy).Some? then {tabs[n - 1].id} else {})
  }

  /** The entry of `windowsWithMatches` for window `w`, or none when the filter drops it. */
  function WindowEntryFor(w: Window, windowIndex: nat, filter: string, fuzzy: bool): (r: Option<WindowEntry>)
    ensures r.Some? ==> r.value.window == w && r.value.windowIndex == windowIndex
  {
    var es := Entries(w.tabs, |w.tabs|, filter, fuzzy);
    if filter != "" && |es| == 0 then None
    else
      var sorted := if filter != "" && fuzzy then SortDesc(es, TabScore) else es;
      Some(WindowEntry(w, windowIndex, sorted, if |sorted| > 0 then MaxScore(sorted) else 0.0))
  }

  /** `windowsWithMatches` over the first `n` windows, before the window sort. */
  function Collected(windows: seq<Window>, n: nat, filter: string, fuzzy: bool): seq<WindowEntry>
    requires n <= |windows|
  {
    Kept(windows, n, (w: Window, i: nat) => WindowEntryFor(w, i, filter, fuzzy))
  }

  /** `searchResults` after the first `n` windows. */
  function ResultIds(windows: seq<Window>, n: nat, filter: string, fuzzy: bool): set<int>
    requires n <= |windows|
  {
    if n == 0 then {} else ResultIds(windows, n - 1, filter, fuzzy) + MatchedIds(windows[n - 1].tabs, |windows[n - 1].tabs|, filter, fuzzy)
  }

  /** The windows and tabs `renderWindows` displays, in display order. */
  function View(windows: seq<Window>, filter: string, fuzzy: bool): seq<WindowEntry> {
    var c := Collected(windows, |windows|, filter, fuzzy);
    if filter != "" && fuzzy then SortDesc(c, WindowScore) else c
  }

  /** The body of the tab loop of `renderWindows`: the entry pushed for one tab, if any. */
  method MatchTab(tab: Tab, ti: nat, filterText: string, isFuzzySearch: bool) returns (e: Option<TabEntry>)
    ensures e == EntryFor(tab, ti, filterText, isFuzzySearch)
  {
    if filterText == "" {
      e := Some(TabEntry(tab, ti, 0.0, [], []));
    } else if isFuzzySearch {
      var titleMatch := FuzzyMatch(tab.title, filterText);
      var urlMatch := FuzzyMatch(tab.url, filterText);
      if titleMatch.Some? || urlMatch.Some? {
        var bestScore := BestOf(ScoreOf(titleMatch), ScoreOf(urlMatch));
        e := Some(TabEntry(tab, ti, bestScore, IndicesOf(titleMatch), IndicesOf(urlMatch)));
      } else {
        e := None;
      }
    } else {
      var titleMatches := Contains(Lower(tab.title), Lower(filterText));
      var urlMatches := Contains(Lower(tab.url), Lower(filterText));
      e := if titleMatches || urlMatches then Some(TabEntry(tab, ti, 0.0, [], [])) else None;
    }
  }

  lemma EntriesStep(tabs: seq<Tab>, n: nat, filter: string, fuzzy: bool)
    requires n < |tabs|
    ensures Entries(tabs, n + 1, filter, fuzzy) == Entries(tabs, n, filter, fuzzy) + OptSeq(EntryFor(tabs[n], n, filter, fuzzy))
    ensures MatchedIds(tabs, n + 1, filter, fuzzy) == MatchedIds(tabs, n, filter, fuzzy) +
      (if filter != "" && EntryFor(tabs[n], n, filter, fuzzy).Some? then {tabs[n].id} else {})
  {
    KeptStep(tabs, n, (t: Tab, k: nat) => EntryFor(t, k, filter, fuzzy));
  }

  /** The tab loop of `renderWindows` for one window: its `matchingTabs` and the ids it adds to `searchResults`. */
  method MatchTabs(tabs: seq<Tab>, filterText: string, isFuzzySearch: bool)
    returns (matchingTabs: seq<TabEntry>, ids: set<int>)
    ensures matchingTabs == Entries(tabs, |tabs|, filterText, isFuzzySearch)
    ensures ids == MatchedIds(tabs, |tabs|, filterText, isFuzzySearch)
  {
    matchingTabs, ids := [], {};
    var ti := 0;
    while ti < |tabs|
      invariant ti <= |tabs|
      invariant matchingTabs == Entries(tabs, ti, filterText, isFuzzySearch)
      invariant ids == MatchedIds(tabs, ti, filterText, isFuzzySearch)
    {
      var e := MatchTab(tabs[ti], ti, filterText, isFuzzySearch);
      EntriesStep(tabs, ti, filterText, isFuzzySearch);
      if e.Some? {
        if filterText != "" {
          ids := ids + {tabs[ti].id};
        }
        matchingTabs := matchingTabs + [e.value];
      }
      ti := ti + 1;
    }
  }

  /** The body of the window loop of `renderWindows`: the window's entry, or none when the filter drops it. */
  method MatchWindow(window: Window, wi: nat, filterText: string, isFuzzySearch: bool)
    returns (e: Option<WindowEntry>, ids: set<int>)
    ensures e == WindowEntryFor(window, wi, filterText, isFuzzySearch)
    ensures ids == MatchedIds(window.tabs, |window.tabs|, filterText, isFuzzySearch)
  {
    var matchingTabs;
    matchingTabs, ids := MatchTabs(window.tabs, filterText, isFuzzySearch);
    if filterText != "" && |matchingTabs| == 0 {
      e := None;
    } else {
      if filterText != "" && isFuzzySearch {
        matchingTabs := SortDesc(matchingTabs, TabScore);
      }
      var bestWindowScore := if |matchingTabs| > 0 then MaxScore(matchingTabs) else 0.0;
      e := Some(WindowEntry(window, wi, matchingTabs, bestWindowScore));
    }
  }

  lemma CollectedStep(windows: seq<Window>, n: nat, filter: string, fuzzy: bool)
    requires n < |windows|
    ensures Collected(windows, n + 1, filter, fuzzy) == Collected(windows, n, filter, fuzzy) + OptSeq(WindowEntryFor(windows[n], n, filter, fuzzy))
  {
    KeptStep(windows, n, (w: Window, i: nat) => WindowEntryFor(w, i, filter, fuzzy));
  }

  lemma ResultIdsStep(windows: seq<Window>, n: nat, filter: string, fuzzy: bool)
    requires n < |windows|
    ensures ResultIds(windows, n + 1, filter, fuzzy)
      == ResultIds(windows, n, filter, fuzzy) + MatchedIds(windows[n].tabs, |windows[n].tabs|, filter, fuzzy)
  {
  }

  /** The data half of `renderWindows`: the window loop and the window sort. */
  method RenderView(allWindows: seq<Window>, filterText: string, isFuzzySearch: bool)
    returns (view: seq<WindowEntry>, searchResults: set<int>)
    ensures view == View(allWindows, filterText, isFuzzySearch)
    ensures searchResults == ResultIds(allWindows, |allWindows|, filterText, isFuzzySearch)
  {
    searchResults := {};
    var windowsWithMatches: seq<WindowEntry> := [];
    var wi := 0;
    while wi < |allWindows|
      invariant wi <= |allWindows|
      invariant windowsWithMatches == Collected(allWindows, wi, filterText, isFuzzySearch)
      invariant searchResults == ResultIds(allWindows, wi, filterText, isFuzzySearch)
    {
      var e, ids := MatchWindow(allWindows[wi], wi, filterText, isFuzzySearch);
      CollectedStep(allWindows, wi, filterText, isFuzzySearch);
      ResultIdsStep(allWindows, wi, filterText, isFuzzySearch);
      searchResults := searchResults + ids;
      windowsWithMatches := windowsWithMatches + OptSeq(e);
      wi := wi + 1;
    }
    if filterText != "" && isFuzzySearch {
      windowsWithMatches := SortDesc(windowsWithMatches, WindowScore);
    }
    view := windowsWithMatches;
  }

  // ---- What the view is ----

  /** Every tab of a window, in order, with score 0 and no highlight positions. */
  function PlainEntries(tabs: seq<Tab>): seq<TabEntry> {
    seq(|tabs|, k requires 0 <= k < |tabs| => TabEntry(tabs[k], k, 0.0, [], []))
  }

  /** Every window, in inventory order, with all its tabs. */
  function Unfiltered(windows: seq<Window>): seq<WindowEntry> {
    seq(|windows|, i requires 0 <= i < |windows| => WindowEntry(windows[i], i, PlainEntries(windows[i].tabs), 0.0))
  }

  /** Each value `Kept` lists is what `f` gives for the item at its position, and the positions increase. */
  lemma KeptPositions<A, B>(xs: seq<A>, n: nat, f: (A, nat) -> Option<B>, pos: B -> nat)
    requires n <= |xs|
    requires forall x, k :: f(x, k).Some? ==> pos(f(x, k).value) == k
    ensures var c := Kept(xs, n, f);
      forall j :: 0 <= j < |c| ==> pos(c[j]) < n && f(xs[pos(c[j])], pos(c[j])) == Some(c[j])
    ensures var c := Kept(xs, n, f);
      forall j, k :: 0 <= j < k < |c| ==> pos(c[j]) < pos(c[k])
  {
    KeptValues(xs, n, f, pos);
    KeptIncreasing(xs, n, f, pos);
  }

  lemma {:induction false} KeptValues<A, B>(xs: seq<A>, n: nat, f: (A, nat) -> Option<B>, pos: B -> nat)
    requires n <= |xs|
    requires forall x, k :: f(x, k).Some? ==> pos(f(x, k).value) == k
    ensures var c := Kept(xs, n, f);
      forall j :: 0 <= j < |c| ==> pos(c[j]) < n && f(xs[pos(c[j])], pos(c[j])) == Some(c[j])
  {
    if n > 0 {
      KeptValues(xs, n - 1, f, pos);
      KeptStep(xs, n - 1, f);
      forall j | 0 <= j < |Kept(xs, n, f)|
        ensures pos(Kept(xs, n, f)[j]) < n
        ensures f(xs[pos(Kept(xs, n, f)[j])], pos(Kept(xs, n, f)[j])) == Some(Kept(xs, n, f)[j])
      {
        if j < |Kept(xs, n - 1, f)| {
          assert Kept(xs, n, f)[j] == Kept(xs, n - 1, f)[j];
        } else {
          assert Kept(xs, n, f)[j] == f(xs[n - 1], n - 1).value;
        }
      }
    }
  }

  lemma {:induction false} KeptIncreasing<A, B>(xs: seq<A>, n: nat, f: (A, nat) -> Option<B>, pos: B -> nat)
    requires n <= |xs|
    requires forall x, k :: f(x, k).Some? ==> pos(f(x, k).value) == k
    ensures var c := Kept(xs, n, f);
      forall j, k :: 0 <= j < k < |c| ==> pos(c[j]) < pos(c[k])
  {
    if n > 0 {
      KeptIncreasing(xs, n - 1, f, pos);
      KeptValues(xs, n - 1, f, pos);
      KeptStep(xs, n - 1, f);
      forall j, k | 0 <= j < k < |Kept(xs, n, f)|
        ensures pos(Kept(xs, n, f)[j]) < pos(Kept(xs, n, f)[k])
      {
        assert Kept(xs, n, f)[j] == Kept(xs, n - 1, f)[j];
        if k < |Kept(xs, n - 1, f)| {
          assert Kept(xs, n, f)[k] == Kept(xs, n - 1, f)[k];
        } else {
          assert Kept(xs, n, f)[k] == f(xs[n - 1], n - 1).value;
        }
      }
    }
  }

  /** `Kept` lists a value for every item that `f` keeps. */
  lemma {:induction false} KeptComplete<A, B>(xs: seq<A>, n: nat, f: (A, nat) -> Option<B>, pos: B -> nat)
    requires n <= |xs|
    requires forall x, k :: f(x, k).Some? ==> pos(f(x, k).value) == k
    ensures forall k :: 0 <= k < n && f(xs[k], k).Some? ==>
      exists j :: 0 <= j < |Kept(xs, n, f)| && pos(Kept(xs, n, f)[j]) == k
  {
    if n > 0 {
      KeptComplete(xs, n - 1, f, pos);
      KeptStep(xs, n - 1, f);
      forall k | 0 <= k < n && f(xs[k], k).Some?
        ensures exists j :: 0 <= j < |Kept(xs, n, f)| && pos(Kept(xs, n, f)[j]) == k
      {
        if k < n - 1 {
          var j :| 0 <= j < |Kept(xs, n - 1, f)| && pos(Kept(xs, n - 1, f)[j]) == k;
          assert Kept(xs, n, f)[j] == Kept(xs, n - 1, f)[j];
          assert 0 <= j < |Kept(xs, n, f)| && pos(Kept(xs, n, f)[j]) == k;
        } else {
          var j := |Kept(xs, n - 1, f)|;
          assert Kept(xs, n, f)[j] == f(xs[n - 1], n - 1).value;
          assert 0 <= j < |Kept(xs, n, f)| && pos(Kept(xs, n, f)[j]) == k;
        }
      }
    }
  }

  /** `Kept` lists what `f` keeps in the order of the items, each item at most once, with `pos` naming the item's position. */
  lemma KeptInOrder<A, B>(xs: seq<A>, n: nat, f: (A, nat) -> Option<B>, pos: B -> nat)
    requires n <= |xs|
    requires forall x, k :: f(x, k).Some? ==> pos(f(x, k).value) == k
    ensures var c := Kept(xs, n, f);
      forall j :: 0 <= j < |c| ==> pos(c[j]) < n && f(xs[pos(c[j])], pos(c[j])) == Some(c[j])
    ensures var c := Kept(xs, n, f);
      forall j, k :: 0 <= j < k < |c| ==> pos(c[j]) < pos(c[k])
    ensures var c := Kept(xs, n, f);
      forall k :: 0 <= k < n ==> (f(xs[k], k).Some? <==> exists j :: 0 <= j < |c| && pos(c[j]) == k)
  {
    KeptPositions(xs, n, f, pos);
    KeptComplete(xs, n, f, pos);
    forall k | 0 <= k < n
      ensures f(xs[k], k).Some? <==> exists j :: 0 <= j < |Kept(xs, n, f)| && pos(Kept(xs, n, f)[j]) == k
    {
      if exists j :: 0 <= j < |Kept(xs, n, f)| && pos(Kept(xs, n, f)[j]) == k {
        var j :| 0 <= j < |Kept(xs, n, f)| && pos(Kept(xs, n, f)[j]) == k;
        assert f(xs[pos(Kept(xs, n, f)[j])], pos(Kept(xs, n, f)[j])) == Some(Kept(xs, n, f)[j]);
        assert f(xs[k], k).Some?;
      } else {
        assert !f(xs[k], k).Some?;
      }
    }
  }

  /** When `f` keeps every item, `Kept` is the whole list of its values. */
  lemma {:induction false} KeptAll<A, B>(xs: seq<A>, n: nat, f: (A, nat) -> Option<B>)
    requires n <= |xs|
    requires forall k :: 0 <= k < n ==> f(xs[k], k).Some?
    ensures |Kept(xs, n, f)| == n
    ensures forall k :: 0 <= k < n ==> Some(Kept(xs, n, f)[k]) == f(xs[k], k)
  {
    if n > 0 {
      KeptAll(xs, n - 1, f);
      var prev := Kept(xs, n - 1, f);
      assert Kept(xs, n, f) == prev + [f(xs[n - 1], n - 1).value];
    }
  }

  lemma {:induction false} MatchedIdsNoFilter(tabs: seq<Tab>, n: nat, fuzzy: bool)
    requires n <= |tabs|
    ensures MatchedIds(tabs, n, "", fuzzy) == {}
  {
    if n > 0 {
      MatchedIdsNoFilter(tabs, n - 1, fuzzy);
    }
  }

  lemma {:induction false} ResultIdsNoFilter(windows: seq<Window>, n: nat, fuzzy: bool)
    requires n <= |windows|
    ensures ResultIds(windows, n, "", fuzzy) == {}
  {
    if n > 0 {
      ResultIdsNoFilter(windows, n - 1, fuzzy);
      MatchedIdsNoFilter(windows[n - 1].tabs, |windows[n - 1].tabs|, fuzzy);
    }
  }

  lemma EntriesNoFilter(tabs: seq<Tab>, fuzzy: bool)
    ensures Entries(tabs, |tabs|, "", fuzzy) == PlainEntries(tabs)
  {
    KeptAll(tabs, |tabs|, (t: Tab, k: nat) => EntryFor(t, k, "", fuzzy));
  }

  lemma WindowNoFilter(w: Window, i: nat, fuzzy: bool)
    ensures WindowEntryFor(w, i, "", fuzzy) == Some(WindowEntry(w, i, PlainEntries(w.tabs), 0.0))
  {
    EntriesNoFilter(w.tabs, fuzzy);
    var es := PlainEntries(w.tabs);
    if |es| > 0 {
      var m := MaxScore(es);
      var k :| 0 <= k < |es| && es[k].score == m;
    }
  }

  /** With an empty filter every window and every tab is shown, in inventory order, and nothing counts as a search result. */
  lemma EmptyFilterShowsAll(windows: seq<Window>, fuzzy: bool)
    ensures View(windows, "", fuzzy) == Unfiltered(windows)
    ensures ResultIds(windows, |windows|, "", fuzzy) == {}
  {
    forall i | 0 <= i < |windows|
      ensures WindowEntryFor(windows[i], i, "", fuzzy) == Some(Unfiltered(windows)[i])
    {
      WindowNoFilter(windows[i], i, fuzzy);
    }
    KeptAll(windows, |windows|, (w: Window, i: nat) => WindowEntryFor(w, i, "", fuzzy));
    ResultIdsNoFilter(windows, |windows|, fuzzy);
  }

  /** With a filter, a tab gets an entry exactly when its title or url matches. */
  lemma EntryIff(tab: Tab, tabIndex: nat, filter: string, fuzzy: bool)
    requires filter != ""
    ensures EntryFor(tab, tabIndex, filter, fuzzy).Some? <==> TabMatches(tab, filter, fuzzy)
  {
    MatchSucceedsIff(tab.title, filter);
    MatchSucceedsIff(tab.url, filter);
  }

  function TabIndexOf(e: TabEntry): nat { e.tabIndex }

  function WindowIndexOf(e: WindowEntry): nat { e.windowIndex }

  /** The entries follow the tabs' order, each is the entry of the tab it names, and a tab has one exactly when `EntryFor` gives one. */
  lemma EntriesInOrder(tabs: seq<Tab>, filter: string, fuzzy: bool)
    ensures var es := Entries(tabs, |tabs|, filter, fuzzy);
      forall j :: 0 <= j < |es| ==>
        es[j].tabIndex < |tabs| && Some(es[j]) == EntryFor(tabs[es[j].tabIndex], es[j].tabIndex, filter, fuzzy)
    ensures var es := Entries(tabs, |tabs|, filter, fuzzy);
      forall j, k :: 0 <= j < k < |es| ==> es[j].tabIndex < es[k].tabIndex
    ensures var es := Entries(tabs, |tabs|, filter, fuzzy);
      forall k :: 0 <= k < |tabs| ==>
        (EntryFor(tabs[k], k, filter, fuzzy).Some? <==> exists j :: 0 <= j < |es| && es[j].tabIndex == k)
  {
    KeptInOrder(tabs, |tabs|, (t: Tab, k: nat) => EntryFor(t, k, filter, fuzzy), TabIndexOf);
  }

  /** With a filter, tab `k` of a window is kept exactly when it matches. */
  lemma TabKeptIff(tabs: seq<Tab>, filter: string, fuzzy: bool, k: nat)
    requires filter != "" && k < |tabs|
    ensures var es := Entries(tabs, |tabs|, filter, fuzzy);
      (exists j :: 0 <= j < |es| && es[j].tabIndex == k) <==> TabMatches(tabs[k], filter, fuzzy)
  {
    EntriesInOrder(tabs, filter, fuzzy);
    EntryIff(tabs[k], k, filter, fuzzy);
  }

  lemma WindowKeptWhenEntries(w: Window, windowIndex: nat, filter: string, fuzzy: bool)
    requires filter != ""
    ensures WindowEntryFor(w, windowIndex, filter, fuzzy).Some? <==> |Entries(w.tabs, |w.tabs|, filter, fuzzy)| > 0
  {
  }

  lemma SomeTabMatches(w: Window, filter: string, fuzzy: bool)
    requires filter != "" && |Entries(w.tabs, |w.tabs|, filter, fuzzy)| > 0
    ensures exists k :: 0 <= k < |w.tabs| && TabMatches(w.tabs[k], filter, fuzzy)
  {
    var es := Entries(w.tabs, |w.tabs|, filter, fuzzy);
    EntriesInOrder(w.tabs, filter, fuzzy);
    var k := es[0].tabIndex;
    EntryIff(w.tabs[k], k, filter, fuzzy);
  }

  lemma NoTabMatches(w: Window, filter: string, fuzzy: bool)
    requires filter != "" && |Entries(w.tabs, |w.tabs|, filter, fuzzy)| == 0
    ensures forall k :: 0 <= k < |w.tabs| ==> !TabMatches(w.tabs[k], filter, fuzzy)
  {
    EntriesInOrder(w.tabs, filter, fuzzy);
    forall k | 0 <= k < |w.tabs|
      ensures !TabMatches(w.tabs[k], filter, fuzzy)
    {
      EntryIff(w.tabs[k], k, filter, fuzzy);
    }
  }

  /** With a filter, a window is dropped exactly when none of its tabs matches. */
  lemma WindowKeptIff(w: Window, windowIndex: nat, filter: string, fuzzy: bool)
    requires filter != ""
    ensures WindowEntryFor(w, windowIndex, filter, fuzzy).Some? <==>
      exists k :: 0 <= k < |w.tabs| && TabMatches(w.tabs[k], filter, fuzzy)
  {
    WindowKeptWhenEntries(w, windowIndex, filter, fuzzy);
    if |Entries(w.tabs, |w.tabs|, filter, fuzzy)| > 0 {
      SomeTabMatches(w, filter, fuzzy);
    } else {
      NoTabMatches(w, filter, fuzzy);
    }
  }

  /** The collected windows follow the inventory order, and a window is there exactly when `WindowEntryFor` keeps it. */
  lemma CollectedInOrder(windows: seq<Window>, filter: string, fuzzy: bool)
    ensures var c := Collected(windows, |windows|, filter, fuzzy);
      forall j :: 0 <= j < |c| ==>
        c[j].windowIndex < |windows| && Some(c[j]) == WindowEntryFor(windows[c[j].windowIndex], c[j].windowIndex, filter, fuzzy)
    ensures var c := Collected(windows, |windows|, filter, fuzzy);
      forall j, k :: 0 <= j < k < |c| ==> c[j].windowIndex < c[k].windowIndex
    ensures var c := Collected(windows, |windows|, filter, fuzzy);
      forall i :: 0 <= i < |windows| ==>
        (WindowEntryFor(windows[i], i, filter, fuzzy).Some? <==> exists j :: 0 <= j < |c| && c[j].windowIndex == i)
  {
    KeptInOrder(windows, |windows|, (w: Window, i: nat) => WindowEntryFor(w, i, filter, fuzzy), WindowIndexOf);
  }

  lemma SubstringScoresZero(tabs: seq<Tab>, filter: string)
    ensures var es := Entries(tabs, |tabs|, filter, false);
      forall j :: 0 <= j < |es| ==> es[j].score == 0.0
  {
    EntriesInOrder(tabs, filter, false);
  }

  /**
   * Substring search keeps the inventory order of windows and of tabs, and
   * every score is 0.
   */
  lemma SubstringModeKeepsOrder(windows: seq<Window>, filter: string)
    ensures View(windows, filter, false) == Collected(windows, |windows|, filter, false)
    ensures forall e :: e in View(windows, filter, false) ==>
      e.matchingTabs == Entries(e.window.tabs, |e.window.tabs|, filter, false) && e.bestScore == 0.0 &&
      forall j :: 0 <= j < |e.matchingTabs| ==> e.matchingTabs[j].score == 0.0
  {
    CollectedInOrder(windows, filter, false);
    forall e | e in View(windows, filter, false)
      ensures e.matchingTabs == Entries(e.window.tabs, |e.window.tabs|, filter, false) && e.bestScore == 0.0
      ensures forall j :: 0 <= j < |e.matchingTabs| ==> e.matchingTabs[j].score == 0.0
    {
      var c := Collected(windows, |windows|, filter, false);
      var j :| 0 <= j < |c| && c[j] == e;
      SubstringScoresZero(e.window.tabs, filter);
      if |e.matchingTabs| > 0 {
        var m := MaxScore(e.matchingTabs);
        var k :| 0 <= k < |e.matchingTabs| && e.matchingTabs[k].score == m;
      }
    }
  }

  /**
   * In a fuzzy search, each kept window lists its tabs by descending score,
   * as a stable reordering of the matching tabs, and its best score is its
   * first tab's score, which no tab of it exceeds.
   */
  lemma FuzzyWindowRanks(w: Window, windowIndex: nat, filter: string)
    requires filter != "" && WindowEntryFor(w, windowIndex, filter, true).Some?
    ensures var e := WindowEntryFor(w, windowIndex, filter, true).value;
      var es := Entries(w.tabs, |w.tabs|, filter, true);
      SortedDesc(e.matchingTabs, TabScore) && multiset(e.matchingTabs) == multiset(es) &&
      (forall v :: WithKey(e.matchingTabs, TabScore, v) == WithKey(es, TabScore, v)) &&
      |e.matchingTabs| > 0 && e.bestScore == e.matchingTabs[0].score &&
      forall k :: 0 <= k < |e.matchingTabs| ==> e.matchingTabs[k].score <= e.bestScore
  {
    var es := Entries(w.tabs, |w.tabs|, filter, true);
    SortDescCorrect(es, TabScore);
    assert |SortDesc(es, TabScore)| == |multiset(SortDesc(es, TabScore))| == |multiset(es)| == |es|;
    MaxOfSorted(SortDesc(es, TabScore));
  }

  /** The best score of entries sorted by descending score is the first one's. */
  lemma MaxOfSorted(es: seq<TabEntry>)
    requires |es| > 0 && SortedDesc(es, TabScore)
    ensures MaxScore(es) == es[0].score
  {
    var k :| 0 <= k < |es| && es[k].score == MaxScore(es);
    assert TabScore(es[0]) >= TabScore(es[k]) || k == 0;
  }

  /** In a fuzzy search the windows come by descending best score, as a stable reordering of the kept windows. */
  lemma FuzzyModeRanks(windows: seq<Window>, filter: string)
    requires filter != ""
    ensures var c := Collected(windows, |windows|, filter, true);
      var v := View(windows, filter, true);
      SortedDesc(v, WindowScore) && multiset(v) == multiset(c) &&
      forall s :: WithKey(v, WindowScore, s) == WithKey(c, WindowScore, s)
  {
    SortDescCorrect(Collected(windows, |windows|, filter, true), WindowScore);
  }

  lemma {:induction false} MatchedIdsIff(tabs: seq<Tab>, n: nat, filter: string, fuzzy: bool, x: int)
    requires filter != "" && n <= |tabs|
    ensures x in MatchedIds(tabs, n, filter, fuzzy) <==>
      exists k :: 0 <= k < n && tabs[k].id == x && TabMatches(tabs[k], filter, fuzzy)
  {
    if n > 0 {
      MatchedIdsIff(tabs, n - 1, filter, fuzzy, x);
      EntryIff(tabs[n - 1], n - 1, filter, fuzzy);
    }
  }

  lemma {:induction false} ResultIdsIff(windows: seq<Window>, n: nat, filter: string, fuzzy: bool, x: int)
    requires filter != "" && n <= |windows|
    ensures x in ResultIds(windows, n, filter, fuzzy) <==>
      exists i, k :: 0 <= i < n && 0 <= k < |windows[i].tabs| && windows[i].tabs[k].id == x && TabMatches(windows[i].tabs[k], filter, fuzzy)
  {
    if n > 0 {
      ResultIdsIff(windows, n - 1, filter, fuzzy, x);
      MatchedIdsIff(windows[n - 1].tabs, |windows[n - 1].tabs|, filter, fuzzy, x);
    }
  }

  /** With a filter, `searchResults` holds exactly the ids of the tabs that match. */
  lemma SearchResultsAreMatches(windows: seq<Window>, filter: string, fuzzy: bool)
    requires filter != ""
    ensures forall x :: x in ResultIds(windows, |windows|, filter, fuzzy) <==>
      exists i, k :: 0 <= i < |windows| && 0 <= k < |windows[i].tabs| && windows[i].tabs[k].id == x && TabMatches(windows[i].tabs[k], filter, fuzzy)
  {
    forall x {
      ResultIdsIff(windows, |windows|, filter, fuzzy, x);
    }
  }

  // ---- updateSearchCount ----

  predicate HoldsResult(w: Window, results: set<int>) {
    exists t :: t in w.tabs && t.id in results
  }

  /** The number of the first `n` items that satisfy `p`. */
  function CountIf<A>(xs: seq<A>, n: nat, p: A -> bool): nat
    requires n <= |xs|
  {
    if n == 0 then 0 else CountIf(xs, n - 1, p) + (if p(xs[n - 1]) then 1 else 0)
  }

  /** `allWindows.filter(w => w.tabs.some(t => searchResults.has(t.id))).length` over the first `n` windows. */
  function WindowsWithResults(windows: seq<Window>, n: nat, results: set<int>): nat
    requires n <= |windows|
  {
    CountIf(windows, n, (w: Window) => HoldsResult(w, results))
  }

  function TotalTabs(windows: seq<Window>): nat {
    if |windows| == 0 then 0 else |windows[0].tabs| + TotalTabs(windows[1..])
  }

  /** The numbers of tabs and windows the search summary reports. */
  function SearchSummary(windows: seq<Window>, filter: string, results: set<int>): (nat, nat) {
    if filter != "" then (|results|, WindowsWithResults(windows, |windows|, results))
    else (TotalTabs(windows), |windows|)
  }

  /** A window holding a search result holds a matching tab, the ids being unique. */
  lemma HoldsResultMatches(windows: seq<Window>, filter: string, fuzzy: bool, i: nat)
    requires filter != "" && UniqueTabIds(windows) && i < |windows|
    requires HoldsResult(windows[i], ResultIds(windows, |windows|, filter, fuzzy))
    ensures exists k :: 0 <= k < |windows[i].tabs| && TabMatches(windows[i].tabs[k], filter, fuzzy)
  {
    var w := windows[i];
    var t :| t in w.tabs && t.id in ResultIds(windows, |windows|, filter, fuzzy);
    var a :| 0 <= a < |w.tabs| && w.tabs[a] == t;
    ResultIdsIff(windows, |windows|, filter, fuzzy, t.id);
    var i', k' :| 0 <= i' < |windows| && 0 <= k' < |windows[i'].tabs| && windows[i'].tabs[k'].id == t.id &&
      TabMatches(windows[i'].tabs[k'], filter, fuzzy);
    assert windows[i].tabs[a].id == windows[i'].tabs[k'].id;
    assert i' == i && k' == a;
  }

  /** A window with a matching tab holds a search result. */
  lemma MatchesHoldResult(windows: seq<Window>, filter: string, fuzzy: bool, i: nat, k: nat)
    requires filter != "" && i < |windows| && k < |windows[i].tabs| && TabMatches(windows[i].tabs[k], filter, fuzzy)
    ensures HoldsResult(windows[i], ResultIds(windows, |windows|, filter, fuzzy))
  {
    ResultIdsIff(windows, |windows|, filter, fuzzy, windows[i].tabs[k].id);
    assert windows[i].tabs[k] in windows[i].tabs;
  }

  /** With unique ids, a window holds a search result exactly when one of its own tabs matches. */
  lemma HoldsResultIff(windows: seq<Window>, filter: string, fuzzy: bool, i: nat)
    requires filter != "" && UniqueTabIds(windows) && i < |windows|
    ensures HoldsResult(windows[i], ResultIds(windows, |windows|, filter, fuzzy)) <==>
      exists k :: 0 <= k < |windows[i].tabs| && TabMatches(windows[i].tabs[k], filter, fuzzy)
  {
    if HoldsResult(windows[i], ResultIds(windows, |windows|, filter, fuzzy)) {
      HoldsResultMatches(windows, filter, fuzzy, i);
    }
    if exists k :: 0 <= k < |windows[i].tabs| && TabMatches(windows[i].tabs[k], filter, fuzzy) {
      var k :| 0 <= k < |windows[i].tabs| && TabMatches(windows[i].tabs[k], filter, fuzzy);
      MatchesHoldResult(windows, filter, fuzzy, i, k);
    }
  }

  lemma KeptIffHoldsResult(windows: seq<Window>, filter: string, fuzzy: bool, i: nat)
    requires filter != "" && UniqueTabIds(windows) && i < |windows|
    ensures HoldsResult(windows[i], ResultIds(windows, |windows|, filter, fuzzy)) <==>
      WindowEntryFor(windows[i], i, filter, fuzzy).Some?
  {
    HoldsResultIff(windows, filter, fuzzy, i);
    WindowKeptIff(windows[i], i, filter, fuzzy);
  }

  /** `Kept` keeps as many items as satisfy a test that agrees with `f`. */
  lemma {:induction false} KeptCount<A, B>(xs: seq<A>, n: nat, f: (A, nat) -> Option<B>, p: A -> bool)
    requires n <= |xs|
    requires forall k :: 0 <= k < n ==> (p(xs[k]) <==> f(xs[k], k).Some?)
    ensures |Kept(xs, n, f)| == CountIf(xs, n, p)
  {
    if n > 0 {
      KeptCount(xs, n - 1, f, p);
    }
  }

  /**
   * With a filter and unique tab ids, the window count of the summary is the
   * number of windows the view shows.
   */
  lemma WindowCountIsShownWindows(windows: seq<Window>, filter: string, fuzzy: bool)
    requires filter != "" && UniqueTabIds(windows)
    ensures SearchSummary(windows, filter, ResultIds(windows, |windows|, filter, fuzzy)).1 == |View(windows, filter, fuzzy)|
  {
    forall i | 0 <= i < |windows|
      ensures HoldsResult(windows[i], ResultIds(windows, |windows|, filter, fuzzy)) <==>
        WindowEntryFor(windows[i], i, filter, fuzzy).Some?
    {
      KeptIffHoldsResult(windows, filter, fuzzy, i);
    }
    var results := ResultIds(windows, |windows|, filter, fuzzy);
    KeptCount(windows, |windows|, (w: Window, i: nat) => WindowEntryFor(w, i, filter, fuzzy), (w: Window) => HoldsResult(w, results));
    var c := Collected(windows, |windows|, filter, fuzzy);
    SortDescCorrect(c, WindowScore);
    assert |SortDesc(c, WindowScore)| == |multiset(SortDesc(c, WindowScore))| == |multiset(c)| == |c|;
  }

  /** The number of tab rows a view lists. */
  function EntryTotal(view: seq<WindowEntry>): nat {
    if |view| == 0 then 0 else |view[0].matchingTabs| + EntryTotal(view[1..])
  }

  lemma {:induction false} EntryTotalOf(view: seq<WindowEntry>, windows: seq<Window>)
    requires |view| == |windows|
    requires forall i :: 0 <= i < |view| ==> |view[i].matchingTabs| == |windows[i].tabs|
    ensures EntryTotal(view) == TotalTabs(windows)
  {
    if |view| > 0 {
      EntryTotalOf(view[1..], windows[1..]);
    }
  }

  /** Without a filter, the summary counts exactly the tab rows and the windows the view lists. */
  lemma NoFilterSummary(windows: seq<Window>, fuzzy: bool, results: set<int>)
    ensures SearchSummary(windows, "", results) == (EntryTotal(View(windows, "", fuzzy)), |View(windows, "", fuzzy)|)
  {
    EmptyFilterShowsAll(windows, fuzzy);
    EntryTotalOf(Unfiltered(windows), windows);
  }
}

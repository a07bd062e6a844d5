/**
 * The selection state of the tab manager: the set `selectedTabs` and the
 * anchor `lastSelectedTabId` of range selection, with the transitions that
 * clicks, the bulk buttons and the tab operations make.
 */
module TabSelection {
  import opened Wrappers
  import opened Inventory

  /** The modifier keys of a click event. */
  datatype Modifiers = Modifiers(ctrlKey: bool, metaKey: bool, shiftKey: bool)

  /**
   * What a click asks of the browser: nothing, bringing a tab (and its
   * window, when one holds it) to the front, or nothing because the handler
   * threw before finishing.
   */
  datatype ClickEffect = NoEffect | Activate(tabId: int, windowId: Option<int>) | Crash

  /** The state after a click, and its effect. */
  datatype ClickOutcome = ClickOutcome(selected: set<int>, anchor: Option<int>, effect: ClickEffect)

  /** `windows.create({ tabId: seed })` followed, when `rest` is non-empty, by `tabs.move(rest)`. */
  datatype MoveRequest = MoveRequest(seed: int, rest: seq<int>)

  predicate Distinct(s: seq<int>) {
    forall p, q :: 0 <= p < q < |s| ==> s[p] != s[q]
  }

  function Ids(s: seq<int>): set<int> {
    set x | x in s
  }

  /** The ids of a window's tabs. */
  function TabIdSet(w: Window): set<int> {
    set k | 0 <= k < |w.tabs| :: w.tabs[k].id
  }

  /** `findIndex`: the first position of `x` in `s`, or -1 when it is absent. */
  function IndexOf(s: seq<int>, x: int): (r: int)
    ensures -1 <= r < |s|
    ensures r == -1 <==> x !in s
    ensures r >= 0 ==> s[r] == x && x !in s[..r]
  {
    if |s| == 0 then -1
    else if s[0] == x then 0
    else
      var r := IndexOf(s[1..], x);
      assert r >= 0 ==> s[..r + 1] == [s[0]] + s[1..][..r];
      if r == -1 then -1 else r + 1
  }

  /** `toggleTabSelection` on the set: `id` changes membership, nothing else does. */
  function Toggled(s: set<int>, id: int): (r: set<int>)
    ensures id in r <==> id !in s
    ensures r - {id} == s - {id}
  {
    if id in s then s - {id} else s + {id}
  }

  /** The visible ids from position `a` to position `b` inclusive, in either order. */
  function Span(visible: seq<int>, a: int, b: int): (r: set<int>)
    requires 0 <= a < |visible| && 0 <= b < |visible|
    ensures forall x :: x in r <==> exists k :: (a <= k <= b || b <= k <= a) && visible[k] == x
  {
    var lo, hi := if a <= b then a else b, if a <= b then b else a;
    set k | lo <= k <= hi :: visible[k]
  }

  /** The anchor survives the check at the top of `handleTabClick` only while its tab is visible. */
  function LiveAnchor(anchor: Option<int>, visible: seq<int>): Option<int> {
    if anchor.Some? && anchor.value !in visible then None else anchor
  }

  predicate IsStale(anchor: Option<int>, visible: seq<int>) {
    anchor.Some? && anchor.value !in visible
  }

  /**
   * `handleTabClick` with a stale anchor treated as no anchor: ctrl/meta
   * activates the tab, shift selects the range from the anchor, and any
   * other click (or a first shift-click) toggles the tab and anchors there.
   */
  function Clicked(selected: set<int>, anchor: Option<int>, tabId: int, mods: Modifiers, visible: seq<int>, windows: seq<Window>): ClickOutcome
    requires tabId in visible
  {
    var live := LiveAnchor(anchor, visible);
    if mods.ctrlKey || mods.metaKey then
      ClickOutcome(selected, live, Activate(tabId, WindowIdForTab(windows, tabId)))
    else if mods.shiftKey && live.Some? then
      ClickOutcome(Span(visible, IndexOf(visible, live.value), IndexOf(visible, tabId)), live, NoEffect)
    else
      ClickOutcome(Toggled(selected, tabId), Some(tabId), NoEffect)
  }

  /**
   * `handleTabClick` as written: a stale anchor clears `lastSelectedTabId`
   * but leaves `anchorIndex` at -1, so a shift-click takes the range branch,
   * clears the selection and then reads `allTabElements[-1]`, which throws.
   */
  function ClickedAsWritten(selected: set<int>, anchor: Option<int>, tabId: int, mods: Modifiers, visible: seq<int>, windows: seq<Window>): ClickOutcome
    requires tabId in visible
  {
    var anchorIndex := if anchor.Some? then Some(IndexOf(visible, anchor.value)) else None;
    var live := if anchorIndex == Some(-1) then None else anchor;
    if mods.ctrlKey || mods.metaKey then
      ClickOutcome(selected, live, Activate(tabId, WindowIdForTab(windows, tabId)))
    else if mods.shiftKey && anchorIndex.Some? then
      if anchorIndex.value == -1 then ClickOutcome({}, live, Crash)
      else ClickOutcome(Span(visible, anchorIndex.value, IndexOf(visible, tabId)), live, NoEffect)
    else
      ClickOutcome(Toggled(selected, tabId), Some(tabId), NoEffect)
  }

  // ---- Properties of a click ----

  /** Ctrl- or meta-click leaves the selection alone and activates the tab in its window. */
  lemma CtrlClickKeepsSelection(selected: set<int>, anchor: Option<int>, tabId: int, mods: Modifiers, visible: seq<int>, windows: seq<Window>)
    requires tabId in visible && (mods.ctrlKey || mods.metaKey)
    ensures var o := Clicked(selected, anchor, tabId, mods, visible, windows);
      o.selected == selected && o.effect == Activate(tabId, WindowIdForTab(windows, tabId)) &&
      (o.effect.windowId.Some? <==> exists k :: 0 <= k < |windows| && HasTab(windows[k], tabId))
  {
  }

  /** A plain click, or a shift-click with no visible anchor, flips the clicked tab alone and anchors there. */
  lemma PlainClickToggles(selected: set<int>, anchor: Option<int>, tabId: int, mods: Modifiers, visible: seq<int>, windows: seq<Window>)
    requires tabId in visible && !mods.ctrlKey && !mods.metaKey
    requires !mods.shiftKey || LiveAnchor(anchor, visible).None?
    ensures var o := Clicked(selected, anchor, tabId, mods, visible, windows);
      (tabId in o.selected <==> tabId !in selected) &&
      (forall x :: x != tabId ==> (x in o.selected <==> x in selected)) &&
      o.anchor == Some(tabId) && o.effect == NoEffect
  {
  }

  /**
   * A shift-click with a visible anchor selects exactly the visible tabs
   * between the anchor and the clicked tab, in either order, and keeps the
   * anchor.
   */
  lemma ShiftClickSelectsRange(selected: set<int>, anchor: Option<int>, tabId: int, mods: Modifiers, visible: seq<int>, windows: seq<Window>)
    requires tabId in visible && !mods.ctrlKey && !mods.metaKey && mods.shiftKey
    requires anchor.Some? && anchor.value in visible
    ensures var o := Clicked(selected, anchor, tabId, mods, visible, windows);
      var a, c := IndexOf(visible, anchor.value), IndexOf(visible, tabId);
      0 <= a < |visible| && visible[a] == anchor.value && 0 <= c < |visible| && visible[c] == tabId &&
      (forall x :: x in o.selected <==> exists k :: (a <= k <= c || c <= k <= a) && visible[k] == x) &&
      anchor.value in o.selected && tabId in o.selected &&
      o.anchor == anchor && o.effect == NoEffect
  {
    var a, c := IndexOf(visible, anchor.value), IndexOf(visible, tabId);
    assert visible[a] in Span(visible, a, c);
    assert visible[c] in Span(visible, a, c);
  }

  /** A click never leaves a stale anchor in place. */
  lemma StaleAnchorCleared(selected: set<int>, anchor: Option<int>, tabId: int, mods: Modifiers, visible: seq<int>, windows: seq<Window>)
    requires tabId in visible
    ensures var o := Clicked(selected, anchor, tabId, mods, visible, windows);
      o.anchor.Some? ==> o.anchor.value in visible
  {
  }

  /** The source agrees with the corrected click everywhere except a shift-click over a stale anchor. */
  lemma AsWrittenAgreesElsewhere(selected: set<int>, anchor: Option<int>, tabId: int, mods: Modifiers, visible: seq<int>, windows: seq<Window>)
    requires tabId in visible
    requires !(IsStale(anchor, visible) && !mods.ctrlKey && !mods.metaKey && mods.shiftKey)
    ensures ClickedAsWritten(selected, anchor, tabId, mods, visible, windows) == Clicked(selected, anchor, tabId, mods, visible, windows)
  {
  }

  /**
   * A shift-click over a stale anchor: the source loses the whole selection
   * and throws, while the intended behaviour is a first shift-click.
   */
  lemma AsWrittenStaleShiftClick(selected: set<int>, anchor: Option<int>, tabId: int, mods: Modifiers, visible: seq<int>, windows: seq<Window>)
    requires tabId in visible
    requires IsStale(anchor, visible) && !mods.ctrlKey && !mods.metaKey && mods.shiftKey
    ensures ClickedAsWritten(selected, anchor, tabId, mods, visible, windows) == ClickOutcome({}, None, Crash)
    ensures Clicked(selected, anchor, tabId, mods, visible, windows) == ClickOutcome(Toggled(selected, tabId), Some(tabId), NoEffect)
  {
  }

  /** Tab 5 is selected and anchored but filtered out of view; a shift-click on tab 1 then empties the selection. */
  lemma StaleAnchorExample()
    ensures ClickedAsWritten({5}, Some(5), 1, Modifiers(false, false, true), [1, 2], []) == ClickOutcome({}, None, Crash)
    ensures Clicked({5}, Some(5), 1, Modifiers(false, false, true), [1, 2], []) == ClickOutcome({1, 5}, Some(1), NoEffect)
  {
    assert IndexOf([1, 2], 5) == -1;
    AsWrittenStaleShiftClick({5}, Some(5), 1, Modifiers(false, false, true), [1, 2], []);
  }

  // ---- Bulk selection ----

  /** `window.tabs.every(tab => selectedTabs.has(tab.id))`. */
  predicate AllSelected(w: Window, selected: set<int>) {
    forall k :: 0 <= k < |w.tabs| ==> w.tabs[k].id in selected
  }

  /** The "Deselect All in Window" mode of a window's button. */
  predicate FullySelectedIn(w: Window, selected: set<int>) {
    |w.tabs| > 0 && AllSelected(w, selected)
  }

  /** `selectAllInWindow` on the set, for a window that exists. */
  function WindowToggled(selected: set<int>, w: Window): set<int> {
    if AllSelected(w, selected) then selected - TabIdSet(w) else selected + TabIdSet(w)
  }

  lemma AllSelectedIff(w: Window, selected: set<int>)
    ensures AllSelected(w, selected) <==> TabIdSet(w) <= selected
  {
    if AllSelected(w, selected) {
      forall x | x in TabIdSet(w) ensures x in selected {
        var k :| 0 <= k < |w.tabs| && w.tabs[k].id == x;
      }
    }
    if TabIdSet(w) <= selected {
      forall k | 0 <= k < |w.tabs| ensures w.tabs[k].id in selected {
        assert w.tabs[k].id in TabIdSet(w);
      }
    }
  }

  /**
   * The window button toggles: on a non-empty window it switches the
   * window between fully selected and not, it selects all of the window's
   * tabs or none of them, and other ids keep their state.
   */
  lemma WindowToggleFlips(selected: set<int>, w: Window)
    ensures |w.tabs| > 0 ==> (FullySelectedIn(w, WindowToggled(selected, w)) <==> !FullySelectedIn(w, selected))
    ensures AllSelected(w, selected) ==> TabIdSet(w) * WindowToggled(selected, w) == {}
    ensures !AllSelected(w, selected) ==> TabIdSet(w) <= WindowToggled(selected, w)
    ensures forall x :: x !in TabIdSet(w) ==> (x in WindowToggled(selected, w) <==> x in selected)
  {
    var r := WindowToggled(selected, w);
    AllSelectedIff(w, selected);
    AllSelectedIff(w, r);
    if |w.tabs| > 0 && AllSelected(w, selected) {
      assert w.tabs[0].id in TabIdSet(w) && w.tabs[0].id !in r;
    }
  }

  /**
   * The global selection state. The DOM classes and checkboxes that the
   * source keeps in step with it are not modelled.
   */
  class Selection {
    var selected: set<int>
    var anchor: Option<int>

    constructor ()
      ensures selected == {} && anchor == None
    {
      selected := {};
      anchor := None;
    }

    /** `toggleTabSelection`. */
    method Toggle(tabId: int)
      modifies this
      ensures selected == Toggled(old(selected), tabId)
      ensures anchor == old(anchor)
    {
      if tabId in selected {
        selected := selected - {tabId};
      } else {
        selected := selected + {tabId};
      }
    }

    /** The range branch: clear, then toggle each visible tab from `start` to `end`. */
    method SelectRange(visible: seq<int>, start: int, end: int)
      requires Distinct(visible) && 0 <= start <= end < |visible|
      modifies this
      ensures selected == Span(visible, start, end)
      ensures anchor == old(anchor)
    {
      selected := {};
      var i := start;
      while i <= end
        invariant start <= i <= end + 1
        invariant selected == set k | start <= k < i :: visible[k]
        invariant anchor == old(anchor)
      {
        assert visible[i] !in selected;
        Toggle(visible[i]);
        assert (set k | start <= k < i + 1 :: visible[k]) == (set k | start <= k < i :: visible[k]) + {visible[i]};
        i := i + 1;
      }
    }

    /** `handleTabClick`, with a stale anchor treated as no anchor. */
    method HandleTabClick(tabId: int, mods: Modifiers, visible: seq<int>, windows: seq<Window>) returns (effect: ClickEffect)
      requires tabId in visible && Distinct(visible)
      modifies this
      ensures ClickOutcome(selected, anchor, effect) == Clicked(old(selected), old(anchor), tabId, mods, visible, windows)
    {
      var currentIndex := IndexOf(visible, tabId);
      var anchorIndex: Option<int> := None;
      if anchor.Some? {
        var found := IndexOf(visible, anchor.value);
        if found == -1 {
          anchor := None;
        } else {
          anchorIndex := Some(found);
        }
      }
      effect := NoEffect;
      if mods.ctrlKey || mods.metaKey {
        effect := Activate(tabId, WindowIdForTab(windows, tabId));
      } else if mods.shiftKey {
        if anchorIndex.None? {
          anchor := Some(tabId);
          Toggle(tabId);
        } else {
          var a := anchorIndex.value;
          var start := if a <= currentIndex then a else currentIndex;
          var end := if a <= currentIndex then currentIndex else a;
          SelectRange(visible, start, end);
        }
      } else {
        Toggle(tabId);
        anchor := Some(tabId);
      }
    }

    /** `handleTabClick` as written, where a shift-click over a stale anchor throws after clearing the selection. */
    method HandleTabClickAsWritten(tabId: int, mods: Modifiers, visible: seq<int>, windows: seq<Window>) returns (effect: ClickEffect)
      requires tabId in visible && Distinct(visible)
      modifies this
      ensures ClickOutcome(selected, anchor, effect) == ClickedAsWritten(old(selected), old(anchor), tabId, mods, visible, windows)
    {
      var currentIndex := IndexOf(visible, tabId);
      var anchorIndex: Option<int> := None;
      if anchor.Some? {
        anchorIndex := Some(IndexOf(visible, anchor.value));
        if anchorIndex.value == -1 {
          anchor := None;
        }
      }
      effect := NoEffect;
      if mods.ctrlKey || mods.metaKey {
        effect := Activate(tabId, WindowIdForTab(windows, tabId));
      } else if mods.shiftKey {
        if anchorIndex.None? {
          anchor := Some(tabId);
          Toggle(tabId);
        } else if anchorIndex.value == -1 {
          // Math.min(-1, currentIndex) is -1, and allTabElements[-1].dataset throws.
          selected := {};
          effect := Crash;
        } else {
          var a := anchorIndex.value;
          var start := if a <= currentIndex then a else currentIndex;
          var end := if a <= currentIndex then currentIndex else a;
          SelectRange(visible, start, end);
        }
      } else {
        Toggle(tabId);
        anchor := Some(tabId);
      }
    }

    /** `selectAllVisible`: every visible tab joins the selection. */
    method SelectAllVisible(visible: seq<int>)
      modifies this
      ensures selected == old(selected) + Ids(visible)
      ensures anchor == old(anchor)
    {
      var k := 0;
      while k < |visible|
        invariant k <= |visible|
        invariant selected == old(selected) + Ids(visible[..k])
        invariant anchor == old(anchor)
      {
        assert visible[..k + 1] == visible[..k] + [visible[k]];
        if visible[k] !in selected {
          selected := selected + {visible[k]};
        }
        k := k + 1;
      }
      assert visible[..k] == visible;
    }

    /** `deselectAll`: the selection empties and the anchor stays. */
    method DeselectAll()
      modifies this
      ensures selected == {}
      ensures anchor == old(anchor)
    {
      selected := {};
    }

    /** `selectAllInWindow`: an unknown window changes nothing; otherwise its tabs are all removed when all are selected, else all added. */
    method SelectAllInWindow(windowId: int, windows: seq<Window>)
      modifies this
      ensures FindWindow(windows, windowId).None? ==> selected == old(selected)
      ensures FindWindow(windows, windowId).Some? ==> selected == WindowToggled(old(selected), FindWindow(windows, windowId).value)
      ensures anchor == old(anchor)
    {
      var found := FindWindow(windows, windowId);
      if found.None? {
        return;
      }
      var w := found.value;
      var allSelected := forall k :: 0 <= k < |w.tabs| ==> w.tabs[k].id in selected;
      var k := 0;
      while k < |w.tabs|
        invariant k <= |w.tabs|
        invariant allSelected ==> selected == old(selected) - set j | 0 <= j < k :: w.tabs[j].id
        invariant !allSelected ==> selected == old(selected) + set j | 0 <= j < k :: w.tabs[j].id
        invariant anchor == old(anchor)
      {
        assert (set j | 0 <= j < k + 1 :: w.tabs[j].id) == (set j | 0 <= j < k :: w.tabs[j].id) + {w.tabs[k].id};
        if allSelected {
          selected := selected - {w.tabs[k].id};
        } else if w.tabs[k].id !in selected {
          selected := selected + {w.tabs[k].id};
        }
        k := k + 1;
      }
    }

    /** The per-window check of `updateWindowSelectButtons`. */
    predicate FullySelected(w: Window)
      reads this
    {
      FullySelectedIn(w, selected)
    }

    /** `closeTab`: only the closed id leaves the selection. */
    method CloseTab(tabId: int)
      modifies this
      ensures selected == old(selected) - {tabId}
      ensures anchor == old(anchor)
    {
      selected := selected - {tabId};
    }

    /**
     * `moveToNewWindow`: with tabs selected, the request seeds a new window
     * with one selected tab and moves the others, each once, and the
     * selection empties.
     */
    method MoveToNewWindow() returns (request: Option<MoveRequest>)
      modifies this
      ensures old(selected) == {} ==> request.None? && selected == {}
      ensures old(selected) != {} ==>
        request.Some? && selected == {} &&
        Ids([request.value.seed] + request.value.rest) == old(selected) && Distinct([request.value.seed] + request.value.rest)
      ensures anchor == old(anchor)
    {
      if selected == {} {
        return None;
      }
      var tabIds := Enumerate(selected);
      assert tabIds == [tabIds[0]] + tabIds[1..];
      request := Some(MoveRequest(tabIds[0], tabIds[1..]));
      selected := {};
    }

    /** `closeSelectedTabs`: the ids handed to `tabs.remove` are the selection, each once, and the selection empties. */
    method CloseSelectedTabs() returns (removed: seq<int>)
      modifies this
      ensures Ids(removed) == old(selected) && Distinct(removed)
      ensures selected == {}
      ensures anchor == old(anchor)
    {
      if selected == {} {
        return [];
      }
      removed := Enumerate(selected);
      selected := {};
    }
  }

  /**
   * `Array.from(selectedTabs)`: the ids in some order, each once. The Set's
   * insertion order is not modelled.
   */
  method Enumerate(s: set<int>) returns (ids: seq<int>)
    ensures Ids(ids) == s && Distinct(ids) && |ids| == |s|
  {
    ids := [];
    var rest := s;
    while rest != {}
      invariant Ids(ids) + rest == s && Ids(ids) * rest == {}
      invariant Distinct(ids) && |ids| + |rest| == |s|
      decreases |rest|
    {
      NonEmptyHasMember(rest);
      var x :| x in rest;
      EnumerateStep(ids, rest, s, x);
      ids := ids + [x];
      rest := rest - {x};
    }
    DistinctSize(ids);
  }

  /** Taking one id out of what is left keeps the ids listed so far distinct and apart from the rest. */
  lemma EnumerateStep(ids: seq<int>, rest: set<int>, s: set<int>, x: int)
    requires Ids(ids) + rest == s && Ids(ids) * rest == {}
    requires Distinct(ids) && |ids| + |rest| == |s|
    requires x in rest
    ensures Ids(ids + [x]) + (rest - {x}) == s && Ids(ids + [x]) * (rest - {x}) == {}
    ensures Distinct(ids + [x]) && |ids + [x]| + |rest - {x}| == |s|
  {
    IdsAppend(ids, x);
    MoveOne(Ids(ids), rest, s, x);
    DistinctAppend(ids, x);
  }

  lemma IdsAppend(ids: seq<int>, x: int)
    ensures Ids(ids + [x]) == Ids(ids) + {x}
  {
  }

  /** Moving `x` from `rest` to `a` keeps the two apart and their union. */
  lemma MoveOne(a: set<int>, rest: set<int>, s: set<int>, x: int)
    requires a + rest == s && a * rest == {} && x in rest
    ensures (a + {x}) + (rest - {x}) == s && (a + {x}) * (rest - {x}) == {}
    ensures x !in a && |rest - {x}| == |rest| - 1
  {
    assert x in a ==> x in a * rest;
  }

  lemma DistinctAppend(ids: seq<int>, x: int)
    requires Distinct(ids) && x !in Ids(ids)
    ensures Distinct(ids + [x])
  {
    var next := ids + [x];
    forall p, q | 0 <= p < q < |next| ensures next[p] != next[q] {
      if q < |ids| {
        assert next[p] == ids[p] && next[q] == ids[q];
      } else {
        assert next[p] == ids[p] && next[q] == x;
        assert ids[p] in Ids(ids);
      }
    }
  }

  lemma NonEmptyHasMember(s: set<int>)
    requires s != {}
    ensures exists y :: y in s
  {
    assert (forall y :: y !in s) ==> s == {};
  }

  lemma {:induction false} DistinctSize(s: seq<int>)
    requires Distinct(s)
    ensures |Ids(s)| == |s|
  {
    if |s| > 0 {
      var init := s[..|s| - 1];
      DistinctSize(init);
      assert s == init + [s[|s| - 1]];
      assert Ids(s) == Ids(init) + {s[|s| - 1]};
      assert s[|s| - 1] !in Ids(init);
    }
  }
}

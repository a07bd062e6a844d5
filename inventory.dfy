/**
 * The snapshot of browser windows the tab manager works on
 * (`chrome.windows.getAll({ populate: true })`), reduced to what the core reads.
 */
module Inventory {
  import opened Wrappers

  datatype Tab = Tab(id: int, title: string, url: string)

  /** A browser window; the order of `tabs` is the tab strip's order. */
  datatype Window = Window(id: int, tabs: seq<Tab>)

  /** The ids of a window's tabs, in tab order (`window.tabs.map(t => t.id)`). */
  function TabIds(w: Window): (r: seq<int>)
    ensures |r| == |w.tabs|
    ensures forall k :: 0 <= k < |r| ==> r[k] == w.tabs[k].id
  {
    seq(|w.tabs|, k requires 0 <= k < |w.tabs| => w.tabs[k].id)
  }

  /** `window.tabs.find(t => t.id === tabId)` succeeds. */
  predicate HasTab(w: Window, tabId: int) {
    exists t :: t in w.tabs && t.id == tabId
  }

  /** No tab id occurs twice anywhere in the snapshot. */
  ghost predicate UniqueTabIds(windows: seq<Window>) {
    forall i, j, a, b ::
      (0 <= i < |windows| && 0 <= j < |windows| && 0 <= a < |windows[i].tabs| && 0 <= b < |windows[j].tabs| &&
       windows[i].tabs[a].id == windows[j].tabs[b].id) ==> i == j && a == b
  }

  /**
   * `getWindowIdForTab`: the id of the first window that holds the tab,
   * or none when no window does.
   */
  function WindowIdForTab(windows: seq<Window>, tabId: int): (r: Option<int>)
    ensures r.None? <==> forall k :: 0 <= k < |windows| ==> !HasTab(windows[k], tabId)
    ensures r.Some? ==>
      exists k :: 0 <= k < |windows| && windows[k].id == r.value && HasTab(windows[k], tabId) &&
        forall j :: 0 <= j < k ==> !HasTab(windows[j], tabId)
  {
    if |windows| == 0 then None
    else if HasTab(windows[0], tabId) then Some(windows[0].id)
    else
      var r := WindowIdForTab(windows[1..], tabId);
      assert forall k :: 1 <= k < |windows| ==> windows[k] == windows[1..][k - 1];
      r
  }

  /** `allWindows.find(w => w.id === windowId)`: the first window with that id. */
  function FindWindow(windows: seq<Window>, windowId: int): (r: Option<Window>)
    ensures r.None? <==> forall k :: 0 <= k < |windows| ==> windows[k].id != windowId
    ensures r.Some? ==>
      exists k :: 0 <= k < |windows| && windows[k] == r.value && r.value.id == windowId &&
        forall j :: 0 <= j < k ==> windows[j].id != windowId
  {
    if |windows| == 0 then None
    else if windows[0].id == windowId then Some(windows[0])
    else
      var r := FindWindow(windows[1..], windowId);
      assert forall k :: 1 <= k < |windows| ==> windows[k] == windows[1..][k - 1];
      r
  }
}

/**
 * The window optimiser: `calculateOptimizationPlan`, which picks the windows
 * to merge (too few tabs) and to split (too many), and the lists of tab ids
 * that `applyOptimization` hands to the browser to carry the plan out.
 */
module Optimize {
  import opened Wrappers
  import opened Text
  import opened Inventory

  /** `parseInt(value) || fallback`: a missing number or 0 falls back. */
  function Threshold(value: string, fallback: int): (r: int)
    ensures fallback != 0 ==> r != 0
  {
    match ParseInt(value)
    case None => fallback
    case Some(v) => if v == 0 then fallback else v
  }

  /** A field holding `${n}` gives `n`, except that 0 falls back; an empty field falls back too. */
  lemma ThresholdOfField(n: int, fallback: int)
    ensures Threshold(Decimal(n), fallback) == if n == 0 then fallback else n
    ensures Threshold("", fallback) == fallback
  {
    ParseDecimal(n);
  }

  /**
   * The max threshold with a value below 1 treated like a missing one. As
   * written, `parseInt(value) || 15` lets a negative value through, and the
   * chunk loop then never ends; this is the limit the apply step needs.
   */
  function SplitLimit(value: string): (r: int)
    ensures r > 0
    ensures Threshold(value, 15) > 0 ==> r == Threshold(value, 15)
    ensures Threshold(value, 15) <= 0 ==> r == 15
  {
    var t := Threshold(value, 15);
    if t > 0 then t else 15
  }

  /**
   * A max field of `-3` passes the threshold as written, and the chunk loop's
   * index, which starts at 0 and grows by the max each step, never reaches a
   * positive tab count: `i < tabs.length` holds forever.
   */
  lemma NonPositiveMaxNeverEnds(n: nat, steps: nat)
    requires n > 0
    ensures Threshold("-3", 15) == -3
    ensures steps * Threshold("-3", 15) < n
  {
    MinusThreeField();
    IndexStaysBelow(n, steps, -3);
  }

  lemma MinusThreeField()
    ensures Threshold("-3", 15) == -3
  {
    ParseDecimal(-3);
    assert Decimal(-3) == "-3";
  }

  /** After any number of steps by a max below 1, the loop index is still below a positive count. */
  lemma {:induction false} IndexStaysBelow(n: nat, steps: nat, max: int)
    requires n > 0 && max <= 0
    ensures steps * max < n
  {
    if steps > 0 {
      IndexStaysBelow(n, steps - 1, max);
      assert steps * max == (steps - 1) * max + max;
    }
  }

  datatype Action =
    | Merge(windows: nat, tabs: nat, description: string)
    | Split(windowId: int, tabs: nat, into: int, description: string)

  datatype Plan = Plan(toMerge: seq<Window>, toSplit: seq<Window>, actions: seq<Action>)

  predicate IsSmall(w: Window, min: int) {
    |w.tabs| < min
  }

  predicate IsLarge(w: Window, min: int, max: int) {
    !(|w.tabs| < min) && |w.tabs| > max
  }

  /** The windows with fewer than `min` tabs, in order. */
  function ToMerge(windows: seq<Window>, min: int): seq<Window> {
    if |windows| == 0 then []
    else ToMerge(windows[..|windows| - 1], min) + (if IsSmall(windows[|windows| - 1], min) then [windows[|windows| - 1]] else [])
  }

  /** The windows with more than `max` tabs that are not merged, in order. */
  function ToSplit(windows: seq<Window>, min: int, max: int): seq<Window> {
    if |windows| == 0 then []
    else ToSplit(windows[..|windows| - 1], min, max) + (if IsLarge(windows[|windows| - 1], min, max) then [windows[|windows| - 1]] else [])
  }

  /** `windows.reduce((sum, w) => sum + w.tabs.length, 0)`. */
  function TabTotal(windows: seq<Window>): nat {
    if |windows| == 0 then 0 else TabTotal(windows[..|windows| - 1]) + |windows[|windows| - 1].tabs|
  }

  /** `Math.ceil(n / d)` on exact rationals. */
  function CeilDiv(n: int, d: int): int
    requires d != 0
  {
    -((-(n as real / d as real)).Floor)
  }

  function MergeDescription(windows: nat, tabs: nat): string {
    "Merge " + Decimal(windows) + " small windows (" + Decimal(tabs) + " tabs total) into one window"
  }

  function SplitDescription(tabs: nat, into: int): string {
    "Split window with " + Decimal(tabs) + " tabs into " + Decimal(into) + " windows"
  }

  /** The merge action, when there are at least two windows to merge. */
  function MergeActions(toMerge: seq<Window>): seq<Action> {
    if |toMerge| > 1 then [Merge(|toMerge|, TabTotal(toMerge), MergeDescription(|toMerge|, TabTotal(toMerge)))] else []
  }

  /** How many merge actions a plan has: one when at least two windows are merged. */
  function MergeCount(toMerge: seq<Window>): nat {
    if |toMerge| >= 2 then 1 else 0
  }

  function SplitAction(w: Window, max: int): Action
    requires max != 0
  {
    var into := CeilDiv(|w.tabs|, max);
    Split(w.id, |w.tabs|, into, SplitDescription(|w.tabs|, into))
  }

  /** One split action per window, in order. */
  function SplitActions(toSplit: seq<Window>, max: int): (r: seq<Action>)
    requires max != 0
    ensures |r| == |toSplit| && forall k :: 0 <= k < |toSplit| ==> r[k] == SplitAction(toSplit[k], max)
  {
    seq(|toSplit|, k requires 0 <= k < |toSplit| => SplitAction(toSplit[k], max))
  }

  /** The plan for thresholds `min` and `max`. */
  function PlanOf(windows: seq<Window>, min: int, max: int): Plan
    requires max != 0
  {
    var toMerge, toSplit := ToMerge(windows, min), ToSplit(windows, min, max);
    Plan(toMerge, toSplit, MergeActions(toMerge) + SplitActions(toSplit, max))
  }

  /** The loop of `calculateOptimizationPlan` over the windows. */
  method Classify(windows: seq<Window>, minTabs: int, maxTabs: int) returns (toMerge: seq<Window>, toSplit: seq<Window>)
    ensures toMerge == ToMerge(windows, minTabs)
    ensures toSplit == ToSplit(windows, minTabs, maxTabs)
  {
    toMerge, toSplit := [], [];
    for k := 0 to |windows|
      invariant toMerge == ToMerge(windows[..k], minTabs)
      invariant toSplit == ToSplit(windows[..k], minTabs, maxTabs)
    {
      assert windows[..k + 1][..k] == windows[..k];
      var tabCount := |windows[k].tabs|;
      if tabCount < minTabs {
        toMerge := toMerge + [windows[k]];
      } else if tabCount > maxTabs {
        toSplit := toSplit + [windows[k]];
      }
    }
    assert windows[..|windows|] == windows;
  }

  /** The loop of `calculateOptimizationPlan` that plans the splits. */
  method PlanSplits(toSplit: seq<Window>, maxTabs: int) returns (actions: seq<Action>)
    requires maxTabs != 0
    ensures actions == SplitActions(toSplit, maxTabs)
  {
    actions := [];
    for k := 0 to |toSplit|
      invariant actions == SplitActions(toSplit[..k], maxTabs)
    {
      SplitActionsStep(toSplit, k, maxTabs);
      var numNewWindows := CeilDiv(|toSplit[k].tabs|, maxTabs);
      actions := actions + [Split(toSplit[k].id, |toSplit[k].tabs|, numNewWindows, SplitDescription(|toSplit[k].tabs|, numNewWindows))];
    }
    assert toSplit[..|toSplit|] == toSplit;
  }

  lemma SplitActionsStep(toSplit: seq<Window>, k: nat, max: int)
    requires k < |toSplit| && max != 0
    ensures SplitActions(toSplit[..k + 1], max) == SplitActions(toSplit[..k], max) + [SplitAction(toSplit[k], max)]
  {
    var prev := toSplit[..k];
    assert toSplit[..k + 1] == prev + [toSplit[k]];
    assert SplitActions(prev + [toSplit[k]], max) == SplitActions(prev, max) + [SplitAction(toSplit[k], max)];
  }

  /** `calculateOptimizationPlan`, given the values of the two threshold fields. */
  method CalculateOptimizationPlan(windows: seq<Window>, minValue: string, maxValue: string) returns (plan: Plan)
    ensures plan == PlanOf(windows, Threshold(minValue, 5), Threshold(maxValue, 15))
  {
    var minTabs := Threshold(minValue, 5);
    var maxTabs := Threshold(maxValue, 15);
    var toMerge, toSplit := Classify(windows, minTabs, maxTabs);
    var actions: seq<Action> := [];
    if |toMerge| > 1 {
      var totalTabs := TabTotal(toMerge);
      actions := actions + [Merge(|toMerge|, totalTabs, MergeDescription(|toMerge|, totalTabs))];
    }
    assert actions == MergeActions(toMerge);
    var splits := PlanSplits(toSplit, maxTabs);
    plan := Plan(toMerge, toSplit, actions + splits);
  }

  // ---- Properties of the plan ----

  lemma {:induction false} ToMergeMembers(windows: seq<Window>, min: int, w: Window)
    ensures w in ToMerge(windows, min) <==> w in windows && IsSmall(w, min)
  {
    if |windows| > 0 {
      ToMergeMembers(windows[..|windows| - 1], min, w);
      assert windows == windows[..|windows| - 1] + [windows[|windows| - 1]];
    }
  }

  lemma {:induction false} ToSplitMembers(windows: seq<Window>, min: int, max: int, w: Window)
    ensures w in ToSplit(windows, min, max) <==> w in windows && IsLarge(w, min, max)
  {
    if |windows| > 0 {
      ToSplitMembers(windows[..|windows| - 1], min, max, w);
      assert windows == windows[..|windows| - 1] + [windows[|windows| - 1]];
    }
  }

  /**
   * A window is merged exactly when it has fewer than `min` tabs, split
   * exactly when it has at least `min` and more than `max`, and never both.
   */
  lemma PlanMembership(windows: seq<Window>, min: int, max: int, w: Window)
    ensures w in ToMerge(windows, min) <==> w in windows && |w.tabs| < min
    ensures w in ToSplit(windows, min, max) <==> w in windows && |w.tabs| >= min && |w.tabs| > max
    ensures !(w in ToMerge(windows, min) && w in ToSplit(windows, min, max))
  {
    ToMergeMembers(windows, min, w);
    ToSplitMembers(windows, min, max, w);
  }

  /** Both lists keep the inventory order: planning two runs of windows plans each run in turn. */
  lemma {:induction false} PlanKeepsOrder(a: seq<Window>, b: seq<Window>, min: int, max: int)
    ensures ToMerge(a + b, min) == ToMerge(a, min) + ToMerge(b, min)
    ensures ToSplit(a + b, min, max) == ToSplit(a, min, max) + ToSplit(b, min, max)
  {
    if |b| > 0 {
      var b' := b[..|b| - 1];
      assert (a + b)[..|a + b| - 1] == a + b';
      PlanKeepsOrder(a, b', min, max);
    } else {
      assert a + b == a;
    }
  }

  /** One merge action, first, exactly when at least two windows are merged, carrying their number and their total tab count. */
  lemma PlanMergeAction(windows: seq<Window>, min: int, max: int)
    requires max != 0
    ensures var p := PlanOf(windows, min, max);
      ((exists k :: 0 <= k < |p.actions| && p.actions[k].Merge?) <==> |p.toMerge| >= 2) &&
      (|p.toMerge| >= 2 ==> p.actions[0].Merge? && p.actions[0].windows == |p.toMerge| && p.actions[0].tabs == TabTotal(p.toMerge))
  {
    var p := PlanOf(windows, min, max);
    var splits := SplitActions(p.toSplit, max);
    if |p.toMerge| < 2 {
      assert p.actions == splits;
      assert forall k :: 0 <= k < |splits| ==> splits[k].Split?;
    } else {
      assert p.actions[0].Merge?;
    }
  }

  /**
   * After the merge, if any, come the split actions: the `k`-th is the split of
   * the `k`-th window to split into `ceil(n / max)` windows, so there are
   * `MergeCount + |toSplit|` actions.
   */
  lemma PlanSplitActions(windows: seq<Window>, min: int, max: int, k: nat)
    requires max != 0 && k < |ToSplit(windows, min, max)|
    ensures |PlanOf(windows, min, max).actions| == MergeCount(ToMerge(windows, min)) + |ToSplit(windows, min, max)|
    ensures PlanOf(windows, min, max).actions[MergeCount(ToMerge(windows, min)) + k] == SplitAction(ToSplit(windows, min, max)[k], max)
  {
    var actions, merges, splits := PlanOf(windows, min, max).actions, MergeActions(ToMerge(windows, min)), SplitActions(ToSplit(windows, min, max), max);
    PlanActions(windows, min, max);
    MergeActionsCount(ToMerge(windows, min));
    ActionsAfter(actions, merges, splits, MergeCount(ToMerge(windows, min)));
  }

  /** The plan holds one action per window to split, plus one merge when at least two windows are small. */
  lemma PlanActionCount(windows: seq<Window>, min: int, max: int)
    requires max != 0
    ensures |PlanOf(windows, min, max).actions| == MergeCount(ToMerge(windows, min)) + |ToSplit(windows, min, max)|
    ensures MergeCount(ToMerge(windows, min)) == if |ToMerge(windows, min)| >= 2 then 1 else 0
  {
    PlanActions(windows, min, max);
    MergeActionsCount(ToMerge(windows, min));
  }

  lemma PlanActions(windows: seq<Window>, min: int, max: int)
    requires max != 0
    ensures PlanOf(windows, min, max).actions == MergeActions(ToMerge(windows, min)) + SplitActions(ToSplit(windows, min, max), max)
  {
  }

  lemma MergeActionsCount(toMerge: seq<Window>)
    ensures |MergeActions(toMerge)| == MergeCount(toMerge)
  {
  }

  lemma ActionsAfter(actions: seq<Action>, merges: seq<Action>, splits: seq<Action>, m: nat)
    requires actions == merges + splits && |merges| == m
    ensures |actions| == m + |splits| && forall k :: 0 <= k < |splits| ==> actions[m + k] == splits[k]
  {
  }

  /** With every window within `[min, max]` there is nothing to do. */
  lemma NothingToDoInRange(windows: seq<Window>, min: int, max: int)
    requires max != 0
    requires forall k :: 0 <= k < |windows| ==> min <= |windows[k].tabs| <= max
    ensures PlanOf(windows, min, max) == Plan([], [], [])
  {
    if ToMerge(windows, min) != [] {
      ToMergeMembers(windows, min, ToMerge(windows, min)[0]);
    }
    if ToSplit(windows, min, max) != [] {
      ToSplitMembers(windows, min, max, ToSplit(windows, min, max)[0]);
    }
  }

  lemma CeilBounds(q: real)
    ensures -((-q).Floor) as real - 1.0 < q <= -((-q).Floor) as real
  {
    var f := (-q).Floor;
    assert f as real <= -q < f as real + 1.0;
  }

  /** `CeilDiv` is the least whole number of `d`-sized parts that hold `n`. */
  lemma CeilDivBounds(n: int, d: int)
    requires d > 0
    ensures (CeilDiv(n, d) - 1) * d < n <= CeilDiv(n, d) * d
  {
    var q := n as real / d as real;
    var r := CeilDiv(n, d);
    CeilBounds(q);
    DivTimes(n as real, d as real);
    MulMonotone(r as real - 1.0, q, d as real);
    MulMonotone(q, r as real, d as real);
    RealOfProduct(r - 1, d);
    RealOfProduct(r, d);
  }

  lemma DivTimes(n: real, d: real)
    requires d != 0.0
    ensures (n / d) * d == n
  {
  }

  lemma RealOfProduct(a: int, b: int)
    ensures (a * b) as real == a as real * b as real
  {
  }

  lemma MulMonotone(x: real, y: real, d: real)
    requires d > 0.0
    ensures x < y ==> x * d < y * d
    ensures x <= y ==> x * d <= y * d
  {
  }

  lemma CeilDivUnique(n: int, d: int, r: int)
    requires d > 0 && (r - 1) * d < n <= r * d
    ensures CeilDiv(n, d) == r
  {
    var c := CeilDiv(n, d);
    CeilDivBounds(n, d);
    assert (c - r) * d < d && (r - c) * d < d;
    MulBelowOne(c - r, d);
    MulBelowOne(r - c, d);
  }

  lemma MulBelowOne(k: int, d: int)
    requires d > 0 && k * d < d
    ensures k < 1
  {
  }

  lemma ExampleLists(a: Window, b: Window, c: Window)
    requires |a.tabs| == 2 && |b.tabs| == 3 && |c.tabs| == 20
    ensures ToMerge([a, b, c], 5) == [a, b] && ToSplit([a, b, c], 5, 15) == [c] && TabTotal([a, b]) == 5
  {
    var ws := [a, b, c];
    assert ws[..2] == [a, b];
    assert [a, b][..1] == [a];
    assert [a][..0] == [];
    assert ToMerge([a], 5) == [a];
    assert ToMerge([a, b], 5) == [a, b];
    assert ToSplit([a], 5, 15) == [];
    assert ToSplit([a, b], 5, 15) == [];
    assert TabTotal([a]) == 2;
  }

  lemma ExampleDecimals()
    ensures Decimal(2) == "2" && Decimal(5) == "5" && Decimal(20) == "20"
  {
    assert NatDecimal(20) == NatDecimal(2) + [DigitChar(0)];
  }

  lemma ExampleMergeDescription()
    ensures MergeDescription(2, 5) == "Merge 2 small windows (5 tabs total) into one window"
  {
    ExampleDecimals();
    MergeTextHead();
    MergeTextTail();
    MergeTextWhole();
  }

  lemma MergeTextHead()
    ensures "Merge " + "2" + " small windows (" == "Merge 2 small windows ("
  {
  }

  lemma MergeTextTail()
    ensures "Merge 2 small windows (" + "5" == "Merge 2 small windows (5"
  {
  }

  lemma MergeTextWhole()
    ensures "Merge 2 small windows (5" + " tabs total) into one window" == "Merge 2 small windows (5 tabs total) into one window"
  {
  }

  lemma ExampleSplitDescription()
    ensures SplitDescription(20, 2) == "Split window with 20 tabs into 2 windows"
  {
    ExampleDecimals();
  }

  /** Windows of 2, 3 and 20 tabs with the default thresholds 5 and 15: one merge of 5 tabs, then 20 tabs split in two. */
  lemma DefaultPlanExample(a: Window, b: Window, c: Window)
    requires |a.tabs| == 2 && |b.tabs| == 3 && |c.tabs| == 20
    ensures PlanOf([a, b, c], Threshold("", 5), Threshold("", 15)).actions ==
      [Merge(2, 5, "Merge 2 small windows (5 tabs total) into one window"),
       Split(c.id, 20, 2, "Split window with 20 tabs into 2 windows")]
  {
    assert Threshold("", 5) == 5 && Threshold("", 15) == 15;
    ExampleLists(a, b, c);
    ExampleMergeDescription();
    ExampleSplitDescription();
    CeilDivUnique(20, 15, 2);
    assert [c][..0] == [];
    assert SplitActions([c], 15) == [SplitAction(c, 15)];
  }

  // ---- The lists applyOptimization hands to the browser ----

  /** `windows.create({ tabId: seed })`, then `tabs.move(moved)` into the new window when `moved` is non-empty. */
  datatype WindowRequest = WindowRequest(seed: Option<int>, moved: seq<int>)

  /** Seed a new window with the first id and move the rest there; an empty list seeds nothing (`tabId: undefined`). */
  function SeedAndMove(ids: seq<int>): (r: WindowRequest)
    ensures |ids| > 0 ==> r.seed == Some(ids[0]) && [ids[0]] + r.moved == ids
    ensures |ids| == 0 ==> r == WindowRequest(None, [])
  {
    if |ids| == 0 then WindowRequest(None, [])
    else WindowRequest(Some(ids[0]), if |ids| > 1 then ids[1..] else [])
  }

  /** The ids of all tabs of the windows to merge, window after window. */
  function MergeList(toMerge: seq<Window>): seq<int> {
    if |toMerge| == 0 then [] else MergeList(toMerge[..|toMerge| - 1]) + TabIds(toMerge[|toMerge| - 1])
  }

  /** `for (let i = 0; i < tabs.length; i += max) chunks.push(tabs.slice(i, i + max))`. */
  function ChunksOf<T>(s: seq<T>, max: int): seq<seq<T>>
    requires max > 0
    decreases |s|
  {
    if |s| == 0 then [] else if |s| <= max then [s] else [s[..max]] + ChunksOf(s[max..], max)
  }

  function Flatten<T>(ss: seq<seq<T>>): seq<T> {
    if |ss| == 0 then [] else ss[0] + Flatten(ss[1..])
  }

  /** The chunk loop. */
  method Chunk(tabs: seq<int>, maxTabs: int) returns (chunks: seq<seq<int>>)
    requires maxTabs > 0
    ensures chunks == ChunksOf(tabs, maxTabs)
  {
    chunks := [];
    var i := 0;
    assert From(tabs, 0) == tabs;
    while i < |tabs|
      invariant 0 <= i
      invariant chunks + ChunksOf(From(tabs, i), maxTabs) == ChunksOf(tabs, maxTabs)
      decreases |tabs| - i
    {
      var chunk := tabs[i..if i + maxTabs < |tabs| then i + maxTabs else |tabs|];
      ChunkStep(tabs, i, maxTabs);
      AppendChunk(chunks, chunk, ChunksOf(From(tabs, i + maxTabs), maxTabs), ChunksOf(tabs, maxTabs));
      chunks := chunks + [chunk];
      i := i + maxTabs;
    }
  }

  /** What is left of `tabs` from index `i` on; nothing once `i` has passed the end. */
  function From<T>(tabs: seq<T>, i: nat): (r: seq<T>)
    ensures |r| == if i < |tabs| then |tabs| - i else 0
  {
    if i < |tabs| then tabs[i..] else []
  }

  /** One turn of the chunk loop takes the next chunk off what is left. */
  lemma ChunkStep(tabs: seq<int>, i: nat, max: int)
    requires max > 0 && i < |tabs|
    ensures ChunksOf(From(tabs, i), max)
      == [tabs[i..if i + max < |tabs| then i + max else |tabs|]] + ChunksOf(From(tabs, i + max), max)
  {
    var rest := tabs[i..];
    if i + max < |tabs| {
      assert tabs[i..i + max] == rest[..max] && rest[max..] == tabs[i + max..];
    } else {
      assert tabs[i..|tabs|] == rest;
    }
  }

  lemma AppendChunk(chunks: seq<seq<int>>, chunk: seq<int>, rest: seq<seq<int>>, whole: seq<seq<int>>)
    requires chunks + ([chunk] + rest) == whole
    ensures (chunks + [chunk]) + rest == whole
  {
  }

  /** The requests for the chunks of one window: the first chunk stays, each later one seeds a new window. */
  function SplitRequests(chunks: seq<seq<int>>): (r: seq<WindowRequest>)
    ensures |r| == if |chunks| <= 1 then 0 else |chunks| - 1
    ensures forall k :: 0 <= k < |r| ==> r[k] == SeedAndMove(chunks[k + 1])
  {
    if |chunks| <= 1 then [] else seq(|chunks| - 1, k requires 0 <= k < |chunks| - 1 => SeedAndMove(chunks[k + 1]))
  }

  lemma SplitRequestsStep(chunks: seq<seq<int>>, i: nat)
    requires 1 <= i < |chunks|
    ensures SplitRequests(chunks)[..i] == SplitRequests(chunks)[..i - 1] + [SeedAndMove(chunks[i])]
  {
    var r := SplitRequests(chunks);
    assert r[..i] == r[..i - 1] + [r[i - 1]];
  }

  function SplitRequestsAll(toSplit: seq<Window>, max: int): seq<WindowRequest>
    requires max > 0
  {
    if |toSplit| == 0 then []
    else SplitRequestsAll(toSplit[..|toSplit| - 1], max) + SplitRequests(ChunksOf(TabIds(toSplit[|toSplit| - 1]), max))
  }

  /** Everything `applyOptimization` asks for, merges first; nothing for a plan without actions. */
  function ApplyRequests(plan: Plan, max: int): seq<WindowRequest>
    requires plan.actions == [] || plan.toSplit == [] || max > 0
  {
    if plan.actions == [] then []
    else
      (if |plan.toMerge| > 1 then [SeedAndMove(MergeList(plan.toMerge))] else []) +
      (if plan.toSplit == [] then [] else SplitRequestsAll(plan.toSplit, max))
  }

  /** The loop that collects the tab ids of the windows to merge. */
  method CollectMergeList(toMerge: seq<Window>) returns (allTabsToMerge: seq<int>)
    ensures allTabsToMerge == MergeList(toMerge)
  {
    allTabsToMerge := [];
    for k := 0 to |toMerge|
      invariant allTabsToMerge == MergeList(toMerge[..k])
    {
      assert toMerge[..k + 1][..k] == toMerge[..k];
      allTabsToMerge := allTabsToMerge + TabIds(toMerge[k]);
    }
    assert toMerge[..|toMerge|] == toMerge;
  }

  /** The loop over the chunks of one window, from the second chunk on. */
  method RequestChunks(chunks: seq<seq<int>>) returns (requests: seq<WindowRequest>)
    ensures requests == SplitRequests(chunks)
  {
    requests := [];
    var i := 1;
    while i < |chunks|
      invariant 1 <= i && i - 1 <= |SplitRequests(chunks)|
      invariant requests == SplitRequests(chunks)[..i - 1]
    {
      SplitRequestsStep(chunks, i);
      requests := requests + [SeedAndMove(chunks[i])];
      i := i + 1;
    }
    assert SplitRequests(chunks)[..i - 1] == SplitRequests(chunks);
  }

  /** The loop over the windows to split. */
  method RequestSplits(toSplit: seq<Window>, maxTabs: int) returns (requests: seq<WindowRequest>)
    requires maxTabs > 0
    ensures requests == SplitRequestsAll(toSplit, maxTabs)
  {
    requests := [];
    for k := 0 to |toSplit|
      invariant requests == SplitRequestsAll(toSplit[..k], maxTabs)
    {
      assert toSplit[..k + 1][..k] == toSplit[..k];
      var chunks := Chunk(TabIds(toSplit[k]), maxTabs);
      var these := RequestChunks(chunks);
      requests := requests + these;
    }
    assert toSplit[..|toSplit|] == toSplit;
  }

  /** `applyOptimization`, with `maxTabs` read again from its field. */
  method ApplyOptimization(plan: Plan, maxValue: string) returns (requests: seq<WindowRequest>)
    ensures requests == ApplyRequests(plan, SplitLimit(maxValue))
  {
    if plan.actions == [] {
      return [];
    }
    var maxTabs := SplitLimit(maxValue);
    var merges: seq<WindowRequest> := [];
    if |plan.toMerge| > 1 {
      var allTabsToMerge := CollectMergeList(plan.toMerge);
      merges := [SeedAndMove(allTabsToMerge)];
    }
    var splits: seq<WindowRequest> := [];
    if plan.toSplit != [] {
      splits := RequestSplits(plan.toSplit, maxTabs);
    }
    requests := merges + splits;
  }

  // ---- Properties of the apply lists ----

  lemma {:induction false} MergeListAppend(a: seq<Window>, b: seq<Window>)
    ensures MergeList(a + b) == MergeList(a) + MergeList(b)
  {
    if |b| > 0 {
      var b' := b[..|b| - 1];
      assert (a + b)[..|a + b| - 1] == a + b';
      MergeListAppend(a, b');
    } else {
      assert a + b == a;
    }
  }

  lemma {:induction false} MergeListLength(toMerge: seq<Window>)
    ensures |MergeList(toMerge)| == TabTotal(toMerge)
  {
    if |toMerge| > 0 {
      MergeListLength(toMerge[..|toMerge| - 1]);
    }
  }

  lemma MergeListOne(w: Window)
    ensures MergeList([w]) == TabIds(w)
  {
    var none: seq<Window> := [];
    assert [w][..0] == none;
  }

  lemma MergeListAround(toMerge: seq<Window>, k: nat)
    requires k < |toMerge|
    ensures MergeList(toMerge) == MergeList(toMerge[..k]) + TabIds(toMerge[k]) + MergeList(toMerge[k + 1..])
  {
    AroundIndex(toMerge, k);
    MergeListOne(toMerge[k]);
    MergeListAppend(toMerge[..k] + [toMerge[k]], toMerge[k + 1..]);
    MergeListAppend(toMerge[..k], [toMerge[k]]);
  }

  lemma AroundIndex<T>(s: seq<T>, k: nat)
    requires k < |s|
    ensures s == s[..k] + [s[k]] + s[k + 1..]
  {
  }

  /** The merge list holds every tab of the merged windows, window after window: as many ids as the plan's tab total. */
  lemma MergeListContents(toMerge: seq<Window>)
    ensures |MergeList(toMerge)| == TabTotal(toMerge)
    ensures forall k :: 0 <= k < |toMerge| ==> MergeList(toMerge) == MergeList(toMerge[..k]) + TabIds(toMerge[k]) + MergeList(toMerge[k + 1..])
  {
    MergeListLength(toMerge);
    forall k | 0 <= k < |toMerge|
      ensures MergeList(toMerge) == MergeList(toMerge[..k]) + TabIds(toMerge[k]) + MergeList(toMerge[k + 1..])
    {
      MergeListAround(toMerge, k);
    }
  }

  /** The chunks put back together are the tab list. */
  lemma {:induction false} ChunksFlatten<T>(s: seq<T>, max: int)
    requires max > 0
    ensures Flatten(ChunksOf(s, max)) == s
    decreases |s|
  {
    if |s| > max {
      ChunksFlatten(s[max..], max);
      assert s == s[..max] + s[max..];
    } else if |s| > 0 {
      assert s + [] == s;
    }
  }

  /** Every chunk is non-empty and at most `max` long, and every chunk but the last is exactly `max` long. */
  lemma {:induction false} ChunkSizes<T>(s: seq<T>, max: int)
    requires max > 0
    ensures forall k :: 0 <= k < |ChunksOf(s, max)| ==> 0 < |ChunksOf(s, max)[k]| <= max
    ensures forall k :: 0 <= k < |ChunksOf(s, max)| - 1 ==> |ChunksOf(s, max)[k]| == max
    decreases |s|
  {
    if |s| > max {
      ChunkSizes(s[max..], max);
      var c := ChunksOf(s, max);
      assert forall k :: 1 <= k < |c| ==> c[k] == ChunksOf(s[max..], max)[k - 1];
    }
  }

  /** There are `ceil(n / max)` chunks: the plan's `into` when `max` has not changed. */
  lemma {:induction false} ChunkCount<T>(s: seq<T>, max: int)
    requires max > 0
    ensures |ChunksOf(s, max)| == CeilDiv(|s|, max)
    decreases |s|
  {
    if |s| == 0 {
      CeilDivUnique(0, max, 0);
    } else if |s| <= max {
      CeilDivUnique(|s|, max, 1);
    } else {
      ChunkCount(s[max..], max);
      var c := CeilDiv(|s| - max, max);
      CeilDivBounds(|s| - max, max);
      CeilDivUnique(|s|, max, c + 1);
    }
  }

  lemma SplitIntoMatchesChunks(w: Window, max: int)
    requires max > 0
    ensures |ChunksOf(TabIds(w), max)| == SplitAction(w, max).into
  {
    ChunkCount(TabIds(w), max);
  }

  /** The ids the split requests carry, request after request. */
  function RequestIds(rs: seq<WindowRequest>): seq<int> {
    if |rs| == 0 then []
    else (if rs[0].seed.Some? then [rs[0].seed.value] else []) + rs[0].moved + RequestIds(rs[1..])
  }

  lemma {:induction false} RequestIdsOfChunks(chunks: seq<seq<int>>)
    requires forall k :: 0 <= k < |chunks| ==> |chunks[k]| > 0
    ensures RequestIds(seq(|chunks|, k requires 0 <= k < |chunks| => SeedAndMove(chunks[k]))) == Flatten(chunks)
  {
    var rs := seq(|chunks|, k requires 0 <= k < |chunks| => SeedAndMove(chunks[k]));
    if |chunks| > 0 {
      RequestIdsOfChunks(chunks[1..]);
      assert rs[1..] == seq(|chunks| - 1, k requires 0 <= k < |chunks| - 1 => SeedAndMove(chunks[1..][k]));
    }
  }

  /**
   * Splitting a window moves every tab past its first `max` into new
   * windows, in order, each new window seeded by its first tab; the first
   * chunk stays where it is.
   */
  lemma SplitMovesTail(ids: seq<int>, max: int)
    requires max > 0
    ensures |SplitRequests(ChunksOf(ids, max))| == if |ids| == 0 then 0 else |ChunksOf(ids, max)| - 1
    ensures RequestIds(SplitRequests(ChunksOf(ids, max))) == if |ids| <= max then [] else ids[max..]
  {
    if |ids| > max {
      ChunksTail(ids, max);
      SplitRequestsTail(ChunksOf(ids, max));
      SeededChunks(ids[max..], max);
    } else if |ids| > 0 {
      assert ChunksOf(ids, max) == [ids];
    }
  }

  lemma ChunksTail<T>(s: seq<T>, max: int)
    requires max > 0 && |s| > max
    ensures |ChunksOf(s, max)| >= 2 && ChunksOf(s, max)[1..] == ChunksOf(s[max..], max)
  {
    assert ChunksOf(s, max) == [s[..max]] + ChunksOf(s[max..], max);
    assert |ChunksOf(s[max..], max)| > 0;
  }

  lemma SplitRequestsTail(chunks: seq<seq<int>>)
    requires |chunks| >= 2
    ensures SplitRequests(chunks)
      == seq(|chunks[1..]|, k requires 0 <= k < |chunks[1..]| => SeedAndMove(chunks[1..][k]))
  {
  }

  /** Seeding a window with each chunk of `s` carries the ids of `s`, in order. */
  lemma SeededChunks(s: seq<int>, max: int)
    requires max > 0
    ensures var c := ChunksOf(s, max);
      RequestIds(seq(|c|, k requires 0 <= k < |c| => SeedAndMove(c[k]))) == s
  {
    ChunkSizes(s, max);
    ChunksFlatten(s, max);
    RequestIdsOfChunks(ChunksOf(s, max));
  }
}

# Tab manager core, modelled in Dafny

This project models the computational core of the tab manager's popup script
`tabmanager.js`. The inventory is a sequence of windows, and each window holds a
sequence of tabs `{id, title, url}`. Over that plain data the model captures:

- **Fuzzy matching and scoring** (module `Fuzzy`). `fuzzyMatch` makes a
  greedy, left-to-right subsequence scan of the lower-cased query over the
  lower-cased text. `calculateScore` then adds up:
  - a length base;
  - a bonus for each adjacent pair of matched positions;
  - a bonus for a match at position 0;
  - word-boundary bonuses;
  - early-position bonuses;
  - a coverage term.

  Scores are exact rationals (`real`). The camel-case term is computed on text
  that is already lower-cased, so it never adds anything; `Fuzzy.CamelBonusInert`
  proves this.
- **The filter and rank pass** behind the window list (module `Ranking`):
  - which tabs and windows are kept;
  - the stable descending sort of tabs, then windows, by score in fuzzy mode;
  - each window's best score;
  - the set of matching tab ids;
  - the "N tabs in M windows" counts.

  The stable sort itself is `StableSort`.
- **The selection state machine** (module `TabSelection`, class `Selection`).
  Its state is the selected-id set and the range-selection anchor. The
  transitions are clicks with and without modifier keys, selecting all visible
  tabs, deselecting all, toggling a whole window, and the removals after closing
  or moving tabs. The visible, ordered id list and the inventory are parameters.
- **The window optimiser** (module `Optimize`):
  - the thresholds read from the two input fields;
  - splitting windows into "to merge" and "to split";
  - the plan's actions and their descriptions;
  - the lists that applying the plan hands to the browser: the concatenated
    merge list and the chunking of every large window into new windows.
- **Link text utilities** (module `Links`):
  - pasted text parsed into urls;
  - the plain, Markdown and HTML export formats;
  - the HTML escaping used when copying.
- **Display helpers** (module `Display`): `cleanText`, and `highlightMatches`
  with the browser's `escapeHtml` as a function parameter.
- **Shared pieces:**
  - text helpers: ASCII lower-casing, JavaScript `trim`, `split`/`join`, and a
    decimal `parseInt`, in `Text`;
  - the window and tab records and their lookups, in `Inventory`;
  - `Option`, in `Wrappers`.

Loops in the source are `method`s with loop invariants, proved equal to a
specification function. The properties are proved about those functions.

## Model

| member | source | states |
|---|---|---|
| Text.Lower | tabmanager.js:50-51 | lower-casing keeps the length and leaves no `A`–`Z`: each upper-case ASCII letter becomes its lower-case letter and every other character stays as it was |
| Text.LowerIdempotent | tabmanager.js:50-51 | lower-casing twice is lower-casing once |
| Text.LowerConcat | tabmanager.js:50-51 | lower-casing distributes over concatenation |
| Text.Trim | tabmanager.js:314 | the result has no leading or trailing whitespace, is the contiguous slice of the input left after the cut, and everything cut from either end is whitespace |
| Text.TrimOfTrimmed | tabmanager.js:965-969 | trimming an already trimmed string changes nothing |
| Text.SplitJoin | tabmanager.js:965-966 | splitting on a separator that no part contains gives back the parts that were joined |
| Text.ParseDecimal | tabmanager.js:1092-1093 | `parseInt` of the decimal form of any integer, negative ones included, gives that integer |
| Inventory.WindowIdForTab | tabmanager.js:504-510 | none exactly when no window holds the tab; otherwise the id of the first window that holds it |
| Inventory.FindWindow | tabmanager.js:797-798 | none exactly when no window has the id; otherwise the first window with that id |
| Fuzzy.Scan | tabmanager.js:58-64 | the scan yields at most one position per remaining query character, strictly increasing, and each one holds the matching query character |
| Fuzzy.ScanGreedyAt | tabmanager.js:58-64 | every text position skipped before the k-th match differs from the k-th query character, so each match is the earliest possible |
| Fuzzy.ScanExhausted | tabmanager.js:58-69 | when the scan stops short, no later text position holds the next query character |
| Fuzzy.ScanComplete | tabmanager.js:58-69 | if the query embeds in the text at all, the greedy scan matches every query character |
| Fuzzy.FuzzyMatch | tabmanager.js:47-74 | the loop computes the match function: an empty query scores 0 with no indices, and a failed scan is none |
| Fuzzy.MatchSucceedsIff | tabmanager.js:48-69 | an empty query gives score 0 and no indices; otherwise there is a match exactly when the lower-cased query is a subsequence of the lower-cased text |
| Fuzzy.MatchPositions | tabmanager.js:58-71 | a match has one index per query character, strictly increasing and in range; each index holds its query character and is the earliest after the previous one |
| Fuzzy.CalculateScore | tabmanager.js:77-131 | the accumulator loops compute the score function for in-range indices of a non-empty text |
| Fuzzy.AddAdjacency | tabmanager.js:84-92 | adds 15 for every index that directly follows the previous one |
| Fuzzy.AddBoundaries | tabmanager.js:99-117 | adds 20 per index after a space, `-`, `_`, `/` or `.`, plus the camel-case bonus |
| Fuzzy.AddEarly | tabmanager.js:119-124 | adds 10 − i for every index i below 10 |
| Fuzzy.CamelBonusInert | tabmanager.js:106-116 | on lower-cased text the camel-case bonus is 0 |
| Fuzzy.MatchScore | tabmanager.js:77-131 | a successful non-empty match scores (100 − L) + 15·pairs + 30·[first index is 0] + boundary bonus + early bonus + 50·Q/L, with L > 0 |
| Fuzzy.ExactMatchScore | tabmanager.js:47-131 | "abc" against "abc" scores 234 at indices 0, 1, 2 |
| Fuzzy.LongerTextScore | tabmanager.js:47-131 | "abc" inside a 24-character text at position 1 scores 136.25 at indices 1, 2, 3 |
| StableSort.SortDescCorrect | tabmanager.js:205-227 | the sort orders by descending key, is a permutation, and keeps the input order among equal keys |
| Ranking.BestOf | tabmanager.js:164-167 | a tab's fuzzy score is the larger of the title and url scores that exist |
| Ranking.MaxScore | tabmanager.js:211-214 | the best score is attained by some tab and bounds every tab's score |
| Ranking.MatchTab | tabmanager.js:146-197 | one iteration of the tab loop computes that tab's entry for the current filter and mode |
| Ranking.MatchTabs | tabmanager.js:145-198 | the tab loop computes a window's kept entries and the ids it adds to the search results |
| Ranking.MatchWindow | tabmanager.js:143-221 | one iteration of the window loop computes the window's entry and its matching ids |
| Ranking.RenderView | tabmanager.js:137-227 | the whole pass computes the ranked view and the search-result set |
| Ranking.EmptyFilterShowsAll | tabmanager.js:146-156 | with no filter every window, empty ones included, is kept in inventory order with all its tabs in order and score 0, and no result ids are recorded |
| Ranking.EntryIff | tabmanager.js:158-197 | with a filter, a tab gets an entry exactly when its title or url matches: fuzzily in fuzzy mode, as a case-insensitive substring otherwise |
| Ranking.EntriesInOrder | tabmanager.js:145-198 | the kept entries are exactly the tabs that match, in their original order |
| Ranking.TabKeptIff | tabmanager.js:145-198 | with a filter, tab k is kept exactly when it matches |
| Ranking.WindowKeptIff | tabmanager.js:200-203 | with a filter, a window is kept exactly when one of its tabs matches |
| Ranking.CollectedInOrder | tabmanager.js:142-222 | the collected windows are exactly the kept windows, in inventory order |
| Ranking.SubstringModeKeepsOrder | tabmanager.js:178-227 | in substring mode nothing is re-sorted, and every tab and window scores 0 |
| Ranking.FuzzyWindowRanks | tabmanager.js:158-214 | in fuzzy mode a window's tabs are a stable descending sort of its kept entries, and its best score is its first tab's, which bounds all the others |
| Ranking.MaxOfSorted | tabmanager.js:211-214 | in a descending list, the reduce-to-maximum gives the first score |
| Ranking.FuzzyModeRanks | tabmanager.js:224-227 | in fuzzy mode the windows are a stable descending sort of the collected windows by best score |
| Ranking.SearchResultsAreMatches | tabmanager.js:137-197 | with a filter, an id is in the search results exactly when some tab with that id matches |
| Ranking.HoldsResultIff | tabmanager.js:532-534 | with distinct tab ids, a window holds a search result exactly when one of its tabs matches |
| Ranking.KeptIffHoldsResult | tabmanager.js:200-203 | a window is counted as having matches exactly when it is shown |
| Ranking.WindowCountIsShownWindows | tabmanager.js:530-538 | with a filter, the window count equals the number of windows in the view |
| Ranking.NoFilterSummary | tabmanager.js:540-545 | with no filter, the counts are the total number of tabs and the number of windows, both as shown in the view |
| TabSelection.IndexOf | tabmanager.js:441-446 | `findIndex` is −1 exactly when the id is absent; otherwise it is the first position holding the id |
| TabSelection.Toggled | tabmanager.js:485-490 | toggling flips the id's membership and leaves every other id alone |
| TabSelection.Span | tabmanager.js:469-475 | the range holds exactly the visible ids between the two positions inclusive, in either order |
| TabSelection.CtrlClickKeepsSelection | tabmanager.js:452-455 | a ctrl- or meta-click leaves the selection unchanged and activates the tab in the window found for it |
| TabSelection.PlainClickToggles | tabmanager.js:456-481 | a plain click, or a shift-click with no visible anchor, flips the clicked id, sets the anchor to it, and changes nothing else |
| TabSelection.ShiftClickSelectsRange | tabmanager.js:463-476 | a shift-click with a visible anchor makes the selection exactly the visible ids between anchor and clicked tab, and keeps the anchor |
| TabSelection.StaleAnchorCleared | tabmanager.js:443-450 | after any click, an anchor that is set is a visible tab |
| TabSelection.AsWrittenAgreesElsewhere | tabmanager.js:438-482 | the click handler as written and the corrected one agree except on a shift-click with a stale anchor |
| TabSelection.AsWrittenStaleShiftClick | tabmanager.js:443-476 | on a shift-click with a stale anchor, the code as written clears the selection and fails reading position −1; the corrected handler toggles the clicked tab and anchors there |
| TabSelection.StaleAnchorExample | tabmanager.js:443-476 | a concrete stale anchor with visible tabs [1, 2] shows the difference |
| TabSelection.AllSelectedIff | tabmanager.js:801 | `every` over a window's tabs holds exactly when all its ids are selected |
| TabSelection.WindowToggleFlips | tabmanager.js:801-827 | toggling a non-empty window flips whether it is fully selected; a full window is cleared, otherwise all of its tabs are added, and ids outside the window are untouched |
| TabSelection.Selection.Toggle | tabmanager.js:485-490 | the selection becomes the toggled set and the anchor is unchanged |
| TabSelection.Selection.SelectRange | tabmanager.js:465-475 | clearing and then toggling each position in the range leaves the range set |
| TabSelection.Selection.HandleTabClick | tabmanager.js:438-482 | the new selection, anchor and browser effect are the corrected click outcome |
| TabSelection.Selection.HandleTabClickAsWritten | tabmanager.js:438-482 | the new selection, anchor and effect are the as-written click outcome, failure included |
| TabSelection.Selection.SelectAllVisible | tabmanager.js:770-782 | the selection becomes the old selection together with every visible id |
| TabSelection.Selection.DeselectAll | tabmanager.js:785-793 | the selection becomes empty and the anchor is kept |
| TabSelection.Selection.SelectAllInWindow | tabmanager.js:796-831 | an unknown window id changes nothing; otherwise the window's tabs are toggled as a block |
| TabSelection.Selection.CloseTab | tabmanager.js:551-555 | only the closed id leaves the selection |
| TabSelection.Selection.MoveToNewWindow | tabmanager.js:854-872 | nothing is requested for an empty selection; otherwise the request seeds a window with one selected id and moves the others, covering the selection exactly once, and the selection becomes empty |
| TabSelection.Selection.CloseSelectedTabs | tabmanager.js:875-882 | the removed ids are exactly the old selection, each once, and the selection becomes empty |
| TabSelection.Enumerate | tabmanager.js:858 | `Array.from` on the set lists each selected id exactly once |
| Optimize.Threshold | tabmanager.js:1092-1095 | with a non-zero default the threshold is never 0 |
| Optimize.ThresholdOfField | tabmanager.js:1092-1095 | a field holding n gives n, except that 0 gives the default; an empty field gives the default |
| Optimize.Classify | tabmanager.js:1104-1112 | the classify loop computes the merge and split lists |
| Optimize.PlanSplits | tabmanager.js:1126-1135 | the split loop computes one split action per window to split |
| Optimize.CalculateOptimizationPlan | tabmanager.js:1091-1138 | the plan is the plan function of the inventory and the two thresholds |
| Optimize.PlanMembership | tabmanager.js:1104-1112 | a window is to merge exactly when it has fewer than min tabs, to split exactly when it has at least min and more than max, and never both |
| Optimize.PlanKeepsOrder | tabmanager.js:1104-1112 | both lists are order-preserving filters of the inventory |
| Optimize.PlanMergeAction | tabmanager.js:1115-1123 | there is a merge action exactly when at least two windows are to merge; it comes first, with their count and total tab count |
| Optimize.PlanSplitActions | tabmanager.js:1115-1135 | the split actions follow the merge action, one per window to split and in order |
| Optimize.PlanActionCount | tabmanager.js:1115-1135 | the plan has one action for a merge of at least two windows plus one per window to split, and no others |
| Optimize.NothingToDoInRange | tabmanager.js:1104-1137 | when every window is within [min, max], the plan has no lists and no actions |
| Optimize.CeilDivBounds | tabmanager.js:1127 | `Math.ceil(n / max)` is the least r with n ≤ r·max |
| Optimize.DefaultPlanExample | tabmanager.js:1091-1138 | windows of 2, 3 and 20 tabs with the defaults give one merge of 2 windows (5 tabs) and one split into 2 windows, with the source's descriptions |
| Optimize.ExampleMergeDescription | tabmanager.js:1118-1121 | the merge description text |
| Optimize.ExampleSplitDescription | tabmanager.js:1130-1133 | the split description text |
| Optimize.SeedAndMove | tabmanager.js:1203-1240 | a non-empty list seeds a new window with its head and moves the rest; an empty one seeds nothing |
| Optimize.CollectMergeList | tabmanager.js:1199-1201 | the loop concatenates the tab ids of the windows to merge |
| Optimize.MergeListContents | tabmanager.js:1199-1201 | the merge list has one id per tab, and each window's ids appear in place, in window order |
| Optimize.Chunk | tabmanager.js:1223-1225 | the chunk loop computes the `slice(i, i + max)` chunking |
| Optimize.ChunksFlatten | tabmanager.js:1223-1225 | the chunks concatenate back to the tab list |
| Optimize.ChunkSizes | tabmanager.js:1223-1225 | every chunk is non-empty and at most max long, and all but the last are exactly max long |
| Optimize.ChunkCount | tabmanager.js:1223-1225 | there are ceil(n / max) chunks |
| Optimize.SplitIntoMatchesChunks | tabmanager.js:1127 | with the same max, the chunk count equals the plan's `into` |
| Optimize.SplitRequests | tabmanager.js:1228-1241 | chunk 0 stays; every later chunk gives one request seeded by its first id |
| Optimize.RequestChunks | tabmanager.js:1228-1241 | the request loop computes the split requests |
| Optimize.RequestSplits | tabmanager.js:1218-1242 | the loop over windows to split computes all their requests |
| Optimize.SplitLimit | tabmanager.js:1191-1192 | the chunk size is always positive: the re-read max when it is positive, otherwise the default 15 |
| Optimize.NonPositiveMaxNeverEnds | tabmanager.js:1223-1225 | a max field of `-3` passes the `\|\| 15` and, as written, the loop index never reaches a positive tab count |
| Optimize.ApplyOptimization | tabmanager.js:1183-1257 | the browser requests are the merge request followed by the split requests, chunked by the re-read max with non-positive values replaced by the default |
| Optimize.SplitMovesTail | tabmanager.js:1223-1241 | the requests of one window are one fewer than its chunks and move exactly the ids after the first max, in order |
| Links.ParseLinks | tabmanager.js:961-1003 | the loop computes the urls of the parse function as written, where a markdown match contributes its first parenthesised group |
| Links.PushLineUrls | tabmanager.js:970-999 | one line adds its urls as written, after those already pushed |
| Links.PushMarkdownUrls | tabmanager.js:980-985 | each markdown match adds its first parenthesised group, left to right |
| Links.PushHrefUrls | tabmanager.js:990-996 | each `href` match adds its quoted value, left to right |
| Links.EscapeOneChar | tabmanager.js:938-945 | a single character is escaped to its entity, or kept |
| Links.EscapeIsPerChar | tabmanager.js:938-945 | the five replacements in sequence, `&` first, are the same as escaping each character independently |
| Links.EscapedIsInert | tabmanager.js:938-945 | escaped text holds no raw `<`, `>`, `"` or `'`, and gains no newline or `[` |
| Links.EscapeConcat | tabmanager.js:938-945 | escaping distributes over concatenation |
| Links.UnescapeEscape | tabmanager.js:938-945 | escaping loses nothing: decoding the five entities gives the original text back |
| Links.GatherWindow | tabmanager.js:893-897 | the inner loop appends the window's selected tabs' links in tab order |
| Links.GatherSelected | tabmanager.js:891-898 | the gather loop collects the selected tabs' links, window by window |
| Links.SelectedLinksMembers | tabmanager.js:891-898 | a link is gathered exactly when it belongs to a selected tab |
| Links.LinesOfJoin | tabmanager.js:965-969 | lines that are non-empty, trimmed and newline-free, joined with newlines, come back out of the line splitting |
| Links.SplitTrimmedJoin | tabmanager.js:965-966 | trimming and splitting a join of trimmed lines gives the lines |
| Links.MarkdownMatchesWhole | tabmanager.js:979 | a `[title](url)` line with `]` free of the title and `)` free of the url is one whole markdown match |
| Links.LinkTargetIsUrl | tabmanager.js:981 | the link target of such a match is its url |
| Links.MarkdownLine | tabmanager.js:978-986 | under the corrected reading, such a line yields exactly its url |
| Links.MarkdownAsWrittenAgrees | tabmanager.js:981 | when the title has no `(`, the first parenthesised group is the url, as intended |
| Links.ParenTitleLine | tabmanager.js:981 | when the title contains `(g)`, the code as written takes `g` instead |
| Links.ParenTitleRoundTrip | tabmanager.js:978-984 | a link titled `a(g)`, exported as Markdown, is read back as `g` by the code as written and as its url by the corrected parser |
| Links.AnchorHrefs | tabmanager.js:989-990 | the HTML export line has exactly one `href` match, the link's |
| Links.QuotedHref | tabmanager.js:992-995 | the quoted `href` value is the url |
| Links.HtmlLine | tabmanager.js:989-997 | an anchor line built from an escaped title yields exactly its url |
| Links.PlainExportLine | tabmanager.js:973-975 | a plain export line of a trimmed, newline-free http(s) url is a well-formed line that yields that url |
| Links.MarkdownExportLine | tabmanager.js:978-986 | a Markdown export line is a well-formed line that yields its url under the corrected reading |
| Links.HtmlExportLine | tabmanager.js:989-997 | an HTML export line is a well-formed line that yields its url |
| Links.ExportLine | tabmanager.js:903-921 | in every format, an exportable link's line yields exactly its url under the corrected reading |
| Links.ExportRoundTrip | tabmanager.js:961-1003 | under the corrected reading, parsing what any format exported gives back the exported urls, in order |
| Links.ExportLineAsWritten | tabmanager.js:970-999 | the parser as written reads an exportable line back as its url, provided a Markdown title has no `(` |
| Links.ExportRoundTripAsWritten | tabmanager.js:961-1003 | the parser as written gives back the urls of any plain or HTML export, and of a Markdown export whose titles have no `(` |
| Links.ClipboardRoundTrip | tabmanager.js:885-921 | nothing is copied exactly when nothing is selected; otherwise the parser as written reads the copied text back as the selected tabs' urls in window and tab order, provided no Markdown title has a `(` |
| Links.ClipboardRoundTripIntended | tabmanager.js:885-921 | under the corrected reading, the copied text reads back as the selected tabs' urls for any exportable titles |
| Display.CleanTextShape | tabmanager.js:312-315 | the result has no leading or trailing whitespace and no two whitespace characters in a row |
| Display.CleanTextIdempotent | tabmanager.js:312-315 | cleaning twice is cleaning once |
| Display.CleanTextIsWords | tabmanager.js:312-315 | the result is the text's words joined by single spaces |
| Display.CollapseOneSpace | tabmanager.js:314 | collapsing whitespace runs leaves none longer than one character, and keeps or collapses the first character |
| Display.CollapseWords | tabmanager.js:314 | collapsing gives optional leading and trailing spaces around the words joined by single spaces |
| Display.HighlightMatches | tabmanager.js:285-309 | the loop computes the highlight function for indices within the text |
| Display.HighlightedIsRendered | tabmanager.js:293-307 | for increasing indices, the loop's output is the text with each marked character wrapped and each unmarked stretch escaped |
| Display.HighlightIsRendered | tabmanager.js:285-309 | for increasing indices, highlighting renders the marked characters wrapped and everything else escaped, in order |
| Display.FuzzyIndicesHighlight | tabmanager.js:285-309 | on a field that `cleanText` leaves unchanged, the indices of a fuzzy match are within the text and render as that highlight |
| Display.RowHighlightMarksMatches | tabmanager.js:334-340 | when the cleaned field matches, the corrected row marks one position per query character, increasing, each holding its lower-cased query character, and renders the cleaned text with exactly those positions marked |
| Display.RowAsWrittenAgreesWhenClean | tabmanager.js:334-340 | on a field `cleanText` leaves unchanged, the row as written is the corrected row |
| Display.RawIndicesMisplaced | tabmanager.js:334-340 | for title ` ab` and query `a`, the row as written marks `b`, while the corrected row marks `a` |

## Left out

- The DOM half of the window list, tab elements, toasts, modals, the plan preview, the scroll handler and button enabling: UI plumbing with nothing to compute.
- Every `chrome.*` call and the clipboard write: external services. Only the id lists and requests handed to them are modelled, not their effects, failures or async ordering.
- The background port and reconnection loop at the top of `tabmanager.js` and all of `background.js`: messaging plumbing. `background.js` is not part of this model.
- The keyboard dispatch in the keydown listeners: DOM event decoding that only calls the modelled operations.
- `escapeHtml`: it relies on the browser's HTML serialisation, so `Display.HighlightMatches` takes it as a function parameter.
- Floating point: scores are exact rationals, so float rounding of the coverage term and float tie-breaking are not modelled. The `-Infinity` seed of `Math.max` is modelled with `Option` and does not affect any kept tab.
- Non-ASCII case mapping: `Text.Lower` maps only `A`–`Z`, so a lower-casing that changes length is not modelled.
- Display.HighlightMatches: requires the indices within the text. Indices that fall outside it, which the source can produce (see Findings), are not followed; `Display.RowHighlightAsWritten` gives none for them.
- Fuzzy.Match, Fuzzy.Score and Display.Highlight: strings are sequences of Unicode scalar values, so lengths and indices count scalar values, not JavaScript's UTF-16 code units. For text with characters outside the Basic Multilingual Plane (emoji, say) the length base, the coverage term, the early bonus and the match and highlight positions differ from the source's.
- Optimize.ApplyOptimization: takes the re-read max field as a parameter beside the plan, as the source does. It chunks by `Optimize.SplitLimit`, the corrected reading; the source's endless loop for a non-positive max is shown by `Optimize.NonPositiveMaxNeverEnds` and not executed.
- Optimize.Chunk: requires max > 0, because with max ≤ 0 the source's chunk loop never ends.
- Optimize.Threshold: `parseInt` is modelled for optional whitespace, an optional sign and decimal digits; a `0x` prefix is not modelled.
- TabSelection.Enumerate: gives the selected ids in some order. It does not model the insertion order that a JavaScript `Set` keeps.
- TabSelection.Selection.HandleTabClick: requires the clicked id visible and the visible ids distinct, as is the case for rendered tabs.
- Ranking.RenderView: the size of the search-result set is not proved equal to the number of rows shown, which can differ when two tabs share an id.
- Display.CleanTextShape: inputs are strings, so the null check for a missing title or url is not modelled.

## Findings

| source | as written | input that shows it | evidently intended | confidence | as-written member | corrected member |
|---|---|---|---|---|---|---|
| tabmanager.js:443-476 | a stale anchor sets `lastSelectedTabId` to null but leaves `anchorIndex` at −1, so a shift-click takes the range branch: it clears the selection, starts the range at −1 and fails reading `allTabElements[-1].dataset` | selection {5}, anchor 5, visible tabs [1, 2], shift-click on 1 | treat the stale anchor as absent: toggle the clicked tab and anchor there, giving selection {1, 5} and anchor 1 | not executed | TabSelection.Selection.HandleTabClickAsWritten, TabSelection.AsWrittenStaleShiftClick, TabSelection.StaleAnchorExample | TabSelection.Selection.HandleTabClick, TabSelection.StaleAnchorCleared, TabSelection.PlainClickToggles |
| tabmanager.js:978-984 | the url of a markdown match is its first `(…)` group, which lies inside the title when the title has parentheses | a tab titled `Docs (v2)` with url `https://x`, copied as Markdown and pasted back: `v2` is opened | take the group after `](`, the link target | not executed | Links.ParseLinks, Links.ParenTitleLine, Links.ParenTitleRoundTrip | Links.LinkTargetIsUrl, Links.ExportRoundTrip |
| tabmanager.js:334-340 | the match indices are computed on the raw title or url but applied to `cleanText`'s output, so leading or repeated whitespace shifts every mark, and indices past the cleaned end are dropped | title ` ab`, filter `a`: the index is 1, so `b` is marked instead of `a` | match against the cleaned text, so each marked position holds its query character | not executed | Display.RowHighlightAsWritten, Display.RawIndicesMisplaced | Display.RowHighlight, Display.RowHighlightMarksMatches |
| tabmanager.js:1191-1192 | `parseInt(value) \|\| 15` replaces only 0 and NaN, so a negative max field reaches the chunk loop, whose index then never grows | max field `-3` with a window of 20 tabs to split | treat a non-positive max as missing and use 15 | not executed | Optimize.Threshold, Optimize.NonPositiveMaxNeverEnds | Optimize.SplitLimit, Optimize.ApplyOptimization |

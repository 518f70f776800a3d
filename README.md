# Virtual list state, in Dafny

A model of the windowing core of `react-renderless-virtual-list`:

- `VirtualListState` (`src/utils/virtualListState.js`) keeps the row heights of
  a long list, a prefix-sum index over them (a JavaScript `Map` from each
  cumulative height to the row that ends there), the total height and a table
  of heights and start offsets for group-header indices. It answers which rows
  cover a pixel range (`findVisibleIndex`), the same range widened by an
  overscan count (`findOverScanIndex`), where a row starts
  (`getFromPosition`) and the height of a group (`getGroupHeight`).
- `withSize` (`src/hocs/withSize.js`): the initial `size` state and the
  `onResize` handler that derives a client size from a ResizeObserver content
  rectangle and stores it when it is positive and new.
- `withScroll` (`src/hocs/withScroll.js`): the `scrollTop` / `scrollReason`
  state, its two handlers `onScroll` and `requestScrollTo`, and the rule that
  calls `scrollTo` on the container when the reason changes to "requested".

Files:

- `wrappers.dfy` — `Option`, standing for JavaScript's `undefined`.
- `prefix_sums.dfy` — `Sum`, `Prefix`, the `Map` that `_setRowHeights` builds
  (`RowOf` for its entries, `Ends` for its key order) and the JavaScript
  `slice`, with the lemmas about them.
- `virtual_list_state.dfy` — the class `VirtualListState`: the setters are
  methods whose loops are proved to build exactly `Ends`, `RowOf` and
  `GroupTable`; the queries are functions over the fields; lemmas state what
  the queries mean.
- `virtual_list_examples.dfy` — the scenarios of the unit tests, derived from
  the general lemmas, and the behaviour with a zero-height row.
- `with_size.dfy`, `with_scroll.dfy` — the two higher-order components' state.

Two points where the model follows the code rather than its tests or its
reading at first sight:

- Group heights. `_setGroupIndices` sums `heights.slice(lastIndex, index)`,
  so the entry of a group index covers the rows from the previous group index
  (inclusive, starting from 0) up to its own index (exclusive). For heights
  `[100,100,100,50,100,100,100,50,100,100,100,100,50]` and indices
  `[3,7,12]` this gives `{300,0}`, `{350,300}`, `{450,650}`
  (`VirtualListExamples.ThreeGroups`), while
  `src/utils/__tests__/virtualListState.spec.js:141-143` expects `{350,0}`,
  `{350,350}`, `{450,700}`. The model follows the code.
- Zero heights. Two rows with the same cumulative height share one `Map` key;
  `Map.set` keeps the key's position and stores the later row. The model
  builds the `Map` that way (`RowOf`, `Ends`). The bounds of the query
  results, the ordering of a window and the row a lookup finds
  (`FindVisibleIndex`, `FindOverScanIndex`, `VisibleIndexOrdered`,
  `FindRow`) are proved for any heights; the characterisation by "first row
  reaching the position" is proved for lists whose every height is positive, and
  `VirtualListExamples.ZeroHeightRow` shows what happens otherwise (the key
  list is shorter than the rows, position 0 is reported in row 1 instead of
  row 0, and the overscan `toPosition` of the last row is missing).

In `withScroll`, `scrollTo` runs only when `scrollReason` changes. The scroll
event that follows a programmatic scroll reports the offset already in the
state, so `onScroll` keeps the reason at "requested", and a later request to
another offset updates `scrollTop` without moving the container
(`WithScroll.SecondRequestNotIssued`).

## Model

| member | source | states |
|---|---|---|
| `PrefixSums.PrefixStep` | src/utils/virtualListState.js:16 | the running `sum` after row `i` is the sum before it plus `heights[i]` |
| `PrefixSums.PrefixWhole` | src/utils/virtualListState.js:19 | the running sum after the last row is `_.sum(heights)`, the total height |
| `PrefixSums.SumZero` | src/utils/virtualListState.js:19 | the total height is zero exactly when every height is zero |
| `PrefixSums.RowOf` | src/utils/virtualListState.js:15-17 | every value of the `Map` is an index of a row |
| `PrefixSums.Ends` | src/utils/virtualListState.js:15-17 | the `Map` has at most one key per row (fewer when rows share an end) |
| `PrefixSums.Slice` | src/utils/virtualListState.js:30 | `slice(a, b)` clamps both bounds to the length, is empty when `b <= a`, and is otherwise the run of heights from the clamped `a` up to the clamped `b` |
| `PrefixSums.PrefixMonotone` | src/utils/virtualListState.js:14-17 | row start offsets never decrease, and strictly increase when every height is positive |
| `PrefixSums.SumOfRange` | src/utils/virtualListState.js:30 | the sum of the rows `a .. b-1` is the start of row `b` minus the start of row `a` |
| `PrefixSums.SliceSum` | src/utils/virtualListState.js:30 | the sum of `heights.slice(a, b)` is the difference of the start offsets at the bounds clamped to the length |
| `PrefixSums.RowOfHasEveryEnd` | src/utils/virtualListState.js:15-17 | every row's end offset is a key of `fromOfRows` |
| `PrefixSums.RowOfIsLastRow` | src/utils/virtualListState.js:16 | each key maps to a row that ends there and no later row ends there (the later index wins) |
| `PrefixSums.EndsShape` | src/utils/virtualListState.js:14-19 | the key list is strictly increasing, has exactly the `Map`'s keys, is no longer than the rows, never exceeds the total and ends with it |
| `PrefixSums.EndsOfPositive` | src/utils/virtualListState.js:14-17 | with positive heights the key list has one entry per row, entry `i` is `heights[0]+…+heights[i]`, and the `Map` sends it back to `i` |
| `VirtualList.FirstAtLeast` | src/utils/virtualListState.js:60-61 | the linear `_.find` stops at the first sum reaching the position, or runs past the end when none does |
| `VirtualList.Find` | src/utils/virtualListState.js:60-61 | `_.find` returns a key at or past the position, or `undefined` exactly when every key lies before it |
| `VirtualList.FindIsFirst` | src/utils/virtualListState.js:60-61 | the key `_.find` returns is the first one at or past the position: every earlier key lies before it |
| `VirtualList.Get` | src/utils/virtualListState.js:63-64 | `Map.get` finds a value exactly for a defined key present in the `Map`, and it is that key's value |
| `VirtualList.Written` | src/utils/virtualListState.js:29-39 | in a table written index by index with `Map.set`, the last index written always has an entry |
| `VirtualList.WrittenKeys` | src/utils/virtualListState.js:29-39 | the keys of such a table are exactly the indices written |
| `VirtualList.WrittenKeeps` | src/utils/virtualListState.js:29-39 | an index that no later index repeats keeps the entry computed when the loop reached it: later writes to other keys leave it alone |
| `VirtualList.GroupTable` | src/utils/virtualListState.js:29-39 | the last group index visited always has an entry |
| `VirtualList.GroupTableKeys` | src/utils/virtualListState.js:29-39 | exactly the given group indices get an entry |
| `VirtualList.LookupOrdered` | src/utils/virtualListState.js:63-64 | a later key of the `Map` maps to a row no earlier than an earlier key, whatever the heights |
| `VirtualList.GroupsTile` | src/utils/virtualListState.js:26-39 | for ascending indices the running `sumOfHeights` is the start offset of the last group index |
| `VirtualList.GroupTableEntry` | src/utils/virtualListState.js:29-39 | for strictly ascending indices the k-th entry has height `heights[g(k-1)]+…+heights[g(k)-1]` (g(-1) = 0) and starts at the sum of the earlier groups, so `from + height` is the start of row g(k) |
| `VirtualList.GroupsAdjacent` | src/utils/virtualListState.js:34-38 | consecutive groups tile without gaps: each starts where the previous one ends |
| `VirtualList.VirtualListState.constructor` | src/utils/virtualListState.js:4-6 | a new state holds the given heights and group indices (both empty by default) with all derived fields consistent |
| `VirtualList.VirtualListState.Reset` | src/utils/virtualListState.js:8-11 | rows and groups are rebuilt from the new heights and indices |
| `VirtualList.VirtualListState.SetRowHeights` | src/utils/virtualListState.js:13-21 | the loop builds exactly the `Map` of cumulative sums (key order and values) and the total is the sum of the heights; groups are untouched |
| `VirtualList.VirtualListState.SetGroupIndices` | src/utils/virtualListState.js:23-40 | the loop builds exactly the group table of the current heights |
| `VirtualList.VirtualListState.GetTotalHeight` | src/utils/virtualListState.js:42-44 | the total height is the sum of the heights |
| `VirtualList.VirtualListState.GetGroupHeight` | src/utils/virtualListState.js:46-48 | an entry exists exactly for the group indices; any other index gives nothing |
| `VirtualList.VirtualListState.GetFromOfRows` | src/utils/virtualListState.js:50-52 | the key list is strictly increasing, bounded by the total, and its last element is the total height |
| `VirtualList.VirtualListState.GetFromPosition` | src/utils/virtualListState.js:54-57 | for any heights, a start offset never exceeds the total height, and row 0 and any index outside the rows give 0 |
| `VirtualList.VirtualListState.FindVisibleIndex` | src/utils/virtualListState.js:59-73 | for any heights, each bound is found exactly when the list is non-empty and the bound is within the total, the rows found are rows of the list, and `toPosition` is present with `to` and lies between the requested position and the total |
| `VirtualList.VirtualListState.FindOverScanIndex` | src/utils/virtualListState.js:75-88 | for any heights, `from = max(visible.from - k, 0)` and `to = min(visible.to + k, n - 1)`, so the window contains the visible rows and stays within the list; a missing bound falls back to row 0 / row `n - 1`, and an empty list gives `from = 0`, `to = -1` and no `toPosition` |
| `VirtualList.VirtualListState.FromPositionSpec` | src/utils/virtualListState.js:54-57 | with positive heights, `getFromPosition(i)` is `heights[0]+…+heights[i-1]` for `0 <= i <= n` |
| `VirtualList.VirtualListState.FindSpec` | src/utils/virtualListState.js:60-64 | `_.find` plus the `Map` lookup yields the first row whose end reaches the position, or nothing exactly when the position lies beyond the total |
| `VirtualList.VirtualListState.FindRow` | src/utils/virtualListState.js:60-64 | for any heights, `_.find` plus the `Map` lookup gives a row exactly when the position is within the total; that row ends at the smallest row end reaching the position and is the last row ending there |
| `VirtualList.VirtualListState.VisibleIndexSpec` | src/utils/virtualListState.js:59-73 | `from` / `to` are the first rows whose ends reach `fromPos` / `toPos`, present exactly when the bound is within the total; `fromPosition` is where `from` starts, `toPosition` where `to` ends |
| `VirtualList.VirtualListState.VisibleIndexOrdered` | src/utils/virtualListState.js:59-73 | for any heights, `fromPos <= toPos` implies that when `to` is found `from` is found too and `from <= to` |
| `VirtualList.VirtualListState.OverScanIndexSpec` | src/utils/virtualListState.js:75-88 | with positive heights, `fromPosition` is where the widened `from` row starts and `toPosition` where the widened `to` row ends; a missing visible `to` gives the total height |
| `VirtualList.VirtualListState.OverScanWithoutCount` | src/utils/virtualListState.js:75-88 | with the default count 0 and bounds within the total, the overscan rows and `fromPosition` equal the visible ones for any heights, and `toPosition` too when every height is positive |
| `VirtualList.VirtualListState.GroupHeightSpec` | src/utils/virtualListState.js:23-48 | `getGroupHeight` of the k-th of strictly ascending indices is the height of its rows and their start offset |
| `VirtualListExamples.UniformPrefix` | src/utils/__tests__/virtualListState.spec.js:18 | rows of equal height `h` start at `h * i` |
| `VirtualListExamples.EmptyList` | src/utils/__tests__/virtualListState.spec.js:12-15 | a state without heights has total 0, no keys, and both queries fall back to their `undefined` / 0 / -1 values |
| `VirtualListExamples.UniformFirstRow` | src/utils/__tests__/virtualListState.spec.js:18 | with rows of equal height `h`, the first row reaching `p` is the one whose end is the first multiple of `h` at or past `p` |
| `VirtualListExamples.Window` | src/utils/__tests__/virtualListState.spec.js:22-52 | over ten rows of 100, the visible rows of a window are the rows covering its bounds, with positions `100 * from` and `100 * (to + 1)` |
| `VirtualListExamples.OverScanWindow` | src/utils/__tests__/virtualListState.spec.js:54-130 | over ten rows of 100, the overscan window widens the visible rows `f .. t` to `max(f - k, 0) .. min(t + k, 9)` with positions `100 * from` and `100 * (to + 1)` |
| `VirtualListExamples.TenRowsVisible` | src/utils/__tests__/virtualListState.spec.js:17-52 | the total height 1000 and the four visible windows of the unit tests |
| `VirtualListExamples.TenRowsOverScan` | src/utils/__tests__/virtualListState.spec.js:54-98 | the six overscan windows of the unit tests with an overscan count of 3 |
| `VirtualListExamples.TenRowsDefaultOverScan` | src/utils/__tests__/virtualListState.spec.js:100-130 | the four overscan windows of the unit tests without a count, equal to the visible ones |
| `VirtualListExamples.ThreeGroups` | src/utils/virtualListState.js:29-39 | the code's group heights for the test data: `{300,0}`, `{350,300}`, `{450,650}`, and none for a non-group index |
| `VirtualListExamples.ThreeGroupsOffsets` | src/utils/__tests__/virtualListState.spec.js:133-139 | in the heights of the group test, rows 0, 3, 7 and 12 start at 0, 300, 650 and 1100 |
| `VirtualListExamples.ZeroHeightTable` | src/utils/virtualListState.js:15-19 | for heights `[100,0,100]` the `Map` is `{100 → 1, 200 → 2}` with keys in that order and the total is 200 |
| `VirtualListExamples.ZeroHeightRow` | src/utils/virtualListState.js:15-17 | with heights `[100,0,100]` the key list is `[100,200]`, position 0 is found in row 1 and the overscan `toPosition` of row 2 is missing |
| `WithSize.ClientSize` | src/hocs/withSize.js:17-27 | the computed height is `top + bottom` and the width `left + right` |
| `WithSize.ResizeTestRect` | src/hocs/__tests__/withSize.spec.js:77-84 | the test's rectangle gives a 200 x 200 size |
| `WithSize.SizeState.constructor` | src/hocs/withSize.js:14 | the initial size is the `size` prop, or 0 x 0 |
| `WithSize.SizeState.OnResize` | src/hocs/withSize.js:16-33 | only the first entry is read; no entry throws; a non-positive or unchanged size calls no `setSize`; otherwise the size becomes exactly the computed one |
| `WithSize.SizeState.SetSize` | src/hocs/withSize.js:32 | the size becomes the given one |
| `WithScroll.OnScroll` | src/hocs/withScroll.js:20-26 | a scroll event to the current offset changes nothing; to another offset sets it with reason "scroll event"; it never moves the container |
| `WithScroll.RequestScrollTo` | src/hocs/withScroll.js:28-34 | a request sets the offset with reason "requested", whatever the previous reason (nothing changes for the current offset); the container moves, to exactly that offset, iff the offset is new and the previous reason was a scroll event |
| `WithScroll.ScrollToIssued` | src/hocs/withScroll.js:64-70 | `scrollTo` runs exactly when the reason changes from "scroll event" to "requested", and with the new `scrollTop` |
| `WithScroll.HandlersIdempotent` | src/hocs/withScroll.js:20-34 | repeating the same scroll event or request changes nothing |
| `WithScroll.SecondRequestNotIssued` | src/hocs/withScroll.js:64-70 | after a request and its echoed scroll event, a request to another offset changes `scrollTop` but does not call `scrollTo` |
| `WithScroll.ScrollContainer.constructor` | src/hocs/withScroll.js:14-18 | the initial state is offset 0 with reason "scroll event" |
| `WithScroll.ScrollContainer.ScrollTo` | src/hocs/withScroll.js:57-59 | the container's offset becomes exactly the given one |
| `WithScroll.ScrollContainer.Dispatch` | src/hocs/withScroll.js:64-70 | a handler result is applied and `scrollTo(scrollTop)` runs only when the reason changed to "requested" |
| `WithScroll.ScrollContainer.HandleScroll` | src/hocs/withScroll.js:20-26 | the state follows `onScroll` and the container does not move |
| `WithScroll.ScrollContainer.HandleRequestScrollTo` | src/hocs/withScroll.js:28-34 | the state follows `requestScrollTo`; the container moves to the offset iff it is new and the previous reason was a scroll event |

## Left out

- `nearestGroupIndices`: asserted by `src/utils/__tests__/virtualListState.spec.js:146-182` but not defined in `src/utils/virtualListState.js`; not modelled.
- The group-height expectations of `src/utils/__tests__/virtualListState.spec.js:141-143` disagree with the code and are not encoded (see above).
- VirtualList.VirtualListState.VisibleIndexSpec: proved only when every height is positive; with zero heights the `Map` merges rows (shown by `ZeroHeightRow`, not characterised in general).
- VirtualList.VirtualListState.OverScanIndexSpec: the positions are characterised only when every height is positive, for the same reason; the row bounds of the window are stated for any heights by `FindOverScanIndex`.
- VirtualList.VirtualListState.FindSpec: proved only when every height is positive (with zero heights the row found is the last of those sharing the end, not the first reaching the position); `FindRow` states the general case.
- VirtualList.VirtualListState.OverScanWithoutCount: proved only for bounds within the total height (beyond it the visible window is `undefined` while the overscan window falls back to the last row); the `toPosition` equality needs every height positive, because with zero heights the overscan `toPosition` reads the key list by row index: for `[100,0,100]` the visible `toPosition` of row 2 is 200 while the overscan one is missing (`ZeroHeightRow`).
- VirtualList.VirtualListState.FromPositionSpec: the start offset is proved only when every height is positive (with zero heights the key list is shorter than the rows, so `getFromPosition(i)` can read a later row's end, and falls back to 0 once `i` passes the key list: for `[100,0,100]`, `getFromPosition(3)` is 0; a reported `fromPosition` can then lie past the requested position: for `[0,0,100]`, `findVisibleIndex(50, 50)` gives row 2 with `fromPosition` 100 although row 2 starts at 0); the fallbacks to 0 are stated for any heights by `GetFromPosition`.
- VirtualList.VirtualListState.GroupHeightSpec: proved only for strictly ascending group indices; for other orders the table is still built exactly as the code does (`GroupTable`).
- JavaScript numbers: heights are natural numbers and positions integers; fractional heights, `NaN` and negative heights are not modelled. The `undefined` results of the queries are `Option` values with the code's fallbacks written out.
- Negative group indices (which `slice` would count from the end) and a negative `overScanCount` are not modelled; indices and counts are natural numbers.
- WithSize.SizeState.OnResize: an empty entry list throws a `TypeError` in the code; the model reports it as `threw` and leaves the size unchanged. Fractional rectangle values are not modelled.
- ResizeObserver wiring (`observe`, `unobserve`, `setSizeRef`, unmount) in `src/hocs/withSize.js:35-71`: event plumbing, left out.
- Scroll listener wiring, `requestAnimationFrame` and lifecycle in `src/hocs/withScroll.js:37-63,72-80`: a scroll event is a call of `HandleScroll` with the container's offset.
- WithScroll.ScrollContainer.Dispatch: each handler result is rendered on its own, so the `scrollReason` rule runs after every update; React may batch several updates of one event handler into one render (`requestScrollTo(a); requestScrollTo(b)` from the state with reason "scroll event" then scrolls once, to `b`), which the model does not capture.
- WithScroll.ScrollContainer.ScrollTo: a browser clamps the offset to the scrollable range and then fires a scroll event; the model sets the offset exactly and leaves the event to the caller.
- React rendering (`VirtualList.js`, `VirtualListItem.js`, `Sized.js`), `mapScrollTop.js`, `mapVh.js`, `performance.js`, the demo under `docs/` and the build configuration: rendering, timing, logging and window events, outside the windowing logic.

# Photo gallery layout core, modelled in Dafny

This project models the parts of a browser photo gallery that hold real logic:

- **The virtualized masonry layout hook** (`useVirtualizedMasonry`). It works out how many fixed-width columns fit the container. It places every photo, in order, into the column whose accumulated height is smallest, keeping the photo's aspect ratio. It keeps only the placements whose vertical span meets the scroll window. It reports the tallest column as the total height.
- **The scroll threshold gate** (`useScrollHandler`). A debounced scroll reading that moved less than a pixel threshold on both axes, measured against the last delivered position, is dropped. Any other reading cancels the pending delivery and schedules a new one.
- **The infinite-scroll trigger** (`useInfiniteScroll`). It asks for the next page when nothing is loading, more pages exist, and the bottom of the viewport is within the threshold of the bottom of the document.
- **Tag extraction from alt text** (`extractTags`). The text is split on commas when it has one and on spaces otherwise. Every piece is trimmed and the empty ones are dropped.

Files:

- `masonry.dfy` (module `Masonry`): the layout as pure functions over `seq<real>`, and the lemmas about it.
- `masonry_hook.dfy` (module `MasonryHook`): the hook's state as a class. Its layout pass runs in place over an `array<real>` of column accumulators and is proved equal to `Masonry.LayoutOf`.
- `scroll_handler.dfy` (module `ScrollHandler`): the gate as a class. Time is abstract: the debounce timer going off is the `Fire` event.
- `infinite_scroll.dfy` (module `InfiniteScroll`): the trigger as a pure function of its readings.
- `tags.dfy` (module `Tags`): split, trim, clean and extract, with round-trip lemmas.

JavaScript numbers are modelled as `real`. Browser readings (window size, scroll offsets, document height) are parameters.

## Model

| member | source | states |
|---|---|---|
| Masonry.ColumnCount | src/hooks/useVirtualizedMasonry.ts:34-37 | At least one column. With a positive pitch (width + gap), either one column or the n columns and their n-1 gaps fit the container, and one more column would not. |
| Masonry.ShortestColumn | src/hooks/useVirtualizedMasonry.ts:51-53 | The chosen index is in range and holds the minimum accumulator. Every lower index is strictly taller, so ties go to the lowest index (first occurrence of the minimum). |
| Masonry.ItemHeight | src/hooks/useVirtualizedMasonry.ts:56-57 | The display height keeps the photo's aspect ratio: height × photo width = item width × photo height. It is non-negative for a non-negative width. |
| Masonry.Zeros | src/hooks/useVirtualizedMasonry.ts:39 | A fresh accumulator list has exactly n entries, all 0. The pass starts from the same list (line 46). |
| Masonry.MinOf | src/hooks/useVirtualizedMasonry.ts:52 | The minimum of the accumulators is one of them and none is smaller. |
| Masonry.IndexOf | src/hooks/useVirtualizedMasonry.ts:51 | The position found holds the value and no earlier position does: the first occurrence. |
| Masonry.ColumnLeft | src/hooks/useVirtualizedMasonry.ts:61 | Column 0 starts at 0, and no column starts left of 0 when the pitch is non-negative. |
| Masonry.ColumnsDoNotOverlap | src/hooks/useVirtualizedMasonry.ts:61 | With a non-negative width and gap, a column plus its gap ends at or before any later column starts. |
| Masonry.Place | src/hooks/useVirtualizedMasonry.ts:56-61 | The placement carries the photo and the fixed width. Its top is one of the accumulators and no accumulator is smaller, and its height keeps the photo's aspect ratio. |
| Masonry.Grow | src/hooks/useVirtualizedMasonry.ts:64 | The accumulators keep their length and only the shortest column changes. Together they grow by exactly the photo's height plus one gap. |
| Masonry.IsVisible | src/hooks/useVirtualizedMasonry.ts:67-70 | A placement lying wholly inside [scrollTop, scrollTop + containerHeight] is kept. One that starts below the window's bottom or ends above its top is not. |
| Masonry.VisibleOf | src/hooks/useVirtualizedMasonry.ts:66-78 | The filter keeps no more placements than it is given. Its members are characterised by `VisibleOfMembers`, and its order by `VisibleOfAppend`. |
| Masonry.LayoutOf | src/hooks/useVirtualizedMasonry.ts:43-83 | The layout has one accumulator per column and no more visible placements than photos. Every visible placement is one of the pass's placements and meets the window. |
| Masonry.MaxOf | src/hooks/useVirtualizedMasonry.ts:101 | The result is one of the column heights and no column is taller. |
| Masonry.PlaceAll | src/hooks/useVirtualizedMasonry.ts:46-64 | A pass keeps one accumulator per column and gives exactly one placement per photo. |
| Masonry.PlacementOfItem | src/hooks/useVirtualizedMasonry.ts:51-61 | The k-th photo goes into the shortest column of the accumulators left by the photos before it. Its top is that column's accumulator and its left is the column index times the pitch. Its width is the item width and its height keeps the aspect ratio. |
| Masonry.PlacedIsPlace | src/hooks/useVirtualizedMasonry.ts:49-64 | The k-th placement of a pass depends only on the accumulators left by the first k photos. |
| Masonry.PlaceAllPrefix | src/hooks/useVirtualizedMasonry.ts:49-79 | Placing a prefix of the photos gives the same first placements as placing all of them: later photos never move earlier ones. |
| Masonry.StepRaisesOnlyChosenColumn | src/hooks/useVirtualizedMasonry.ts:64 | Placing a photo raises only the chosen column, by exactly its height plus the gap, and leaves every other column as it was. |
| Masonry.SumOfHeights | src/hooks/useVirtualizedMasonry.ts:46-64 | The accumulators start at zero and end up summing to every photo's height plus one gap per photo, the last photo's gap included. |
| Masonry.TotalHeightCoversPlacements | src/hooks/useVirtualizedMasonry.ts:60-101 | With a non-negative width and gap, every accumulator is non-negative. Every placement has a top of at least 0 and a bottom edge no lower than the tallest column, so totalHeight covers every photo. |
| Masonry.UniformHeightsStayBalanced | src/hooks/useVirtualizedMasonry.ts:49-64 | When all photos get the same display height h, no two columns differ by more than h plus the gap after the pass. |
| Masonry.VisibleOfMembers | src/hooks/useVirtualizedMasonry.ts:67-78 | A placement is in the visible list if and only if it was placed and its span [top, top + height] meets [scrollTop, scrollTop + containerHeight]. Both ends are inclusive. |
| Masonry.VisibleOfAppend | src/hooks/useVirtualizedMasonry.ts:66-79 | Filtering keeps input order: filtering a concatenation concatenates the filtered parts. |
| Masonry.WiderWindowKeepsVisible | src/hooks/useVirtualizedMasonry.ts:67-70 | A window that contains another keeps every placement the smaller one kept. |
| Masonry.SinglePhotoExample | src/hooks/useVirtualizedMasonry.ts:49-64 | A 1000 × 500 photo in one column at width 300 and gap 20 is placed 300 × 150 at the origin. The column accumulator (totalHeight) is 170. |
| Masonry.ThreeSquaresExample | src/hooks/useVirtualizedMasonry.ts:49-64 | Three squares in two columns land at column 0 top 0, column 1 top 0, then column 0 top 320. The tie at the start goes to column 0. |
| Masonry.GridFixtureHeights | src/hooks/useVirtualizedMasonry.ts:49-64 | The two fixture photos at width 300 and gap 20 in three columns leave the accumulators [260, 245, 0]. |
| Masonry.GridFixtureExample | src/components/MasonryGrid.tsx:69-70 | The grid's constants (width 300, gap 20) in a 1000 × 1000 container give three columns. The two fixture photos are both visible, 300 × 240 at (0, 0) and 300 × 225 at (0, 320). |
| MasonryHook.VirtualizedMasonry.constructor | src/hooks/useVirtualizedMasonry.ts:27-30 | The hook starts with no columns, no accumulators, nothing visible and scrollTop 0. |
| MasonryHook.VirtualizedMasonry.UpdateColumns | src/hooks/useVirtualizedMasonry.ts:33-40 | The geometry effect sets the column count to ColumnCount (at least 1) and resets the accumulators to that many zeros. Nothing else changes. |
| MasonryHook.VirtualizedMasonry.CalculateLayout | src/hooks/useVirtualizedMasonry.ts:43-83 | With no columns, nothing changes. Otherwise the new accumulators and visible list are exactly LayoutOf the photos, column count, width, gap, scroll offset and container height. The previous layout has no influence. |
| MasonryHook.VirtualizedMasonry.HandleScroll | src/hooks/useVirtualizedMasonry.ts:86-92 | The scroll offset becomes the new position, then the layout is recomputed with it. |
| MasonryHook.VirtualizedMasonry.TotalHeight | src/hooks/useVirtualizedMasonry.ts:101 | Once there is a column, totalHeight is one of the accumulators and no accumulator is taller. |
| MasonryHook.ResizeScenario | src/hooks/useVirtualizedMasonry.ts:33-40 | After a layout of the two fixture photos, the accumulators are [260, 245, 0] and totalHeight is 260. A resize that changes only the width adds 10 pixels, keeps three columns and resets the accumulators to zeros. The layout callback does not depend on the width (line 83), so totalHeight is then 0 while the old visible placements remain. |
| MasonryHook.RunPass | src/hooks/useVirtualizedMasonry.ts:46-79 | The in-place forEach over a fresh zero accumulator array yields exactly the layout specification's accumulators and visible list. |
| MasonryHook.PlaceNext | src/hooks/useVirtualizedMasonry.ts:50-64 | One photo: the placement is Place of the accumulators before it, and the array afterwards is those accumulators with the chosen column raised. |
| ScrollHandler.Abs | src/hooks/useScrollHandler.ts:34-39 | The distance is non-negative and equals the difference or its negation. |
| ScrollHandler.IsNegligible | src/hooks/useScrollHandler.ts:34-43 | A reading is dropped when both distances are under the threshold. A threshold of zero or less drops nothing, and a positive one drops a reading of the very same position. |
| ScrollHandler.ScrollGate.constructor | src/hooks/useScrollHandler.ts:27-30 | The last processed position starts at (0, 0). Nothing is pending and nothing has been delivered. |
| ScrollHandler.ScrollGate.Reading | src/hooks/useScrollHandler.ts:32-55 | While mounted, a reading is scheduled if and only if it moved by at least the threshold on some axis against the last processed position. A scheduled reading replaces the pending delivery. A dropped one, and any reading after teardown, changes nothing. The last processed position and the deliveries are untouched. |
| ScrollHandler.ScrollGate.Fire | src/hooks/useScrollHandler.ts:49-52 | The timer going off makes the pending reading the last processed position and appends it, once, to the onScroll calls. |
| ScrollHandler.ScrollGate.Teardown | src/hooks/useScrollHandler.ts:64-72 | Unmounting removes the listener and cancels the pending delivery. The last processed position and the deliveries are kept. |
| ScrollHandler.GateScenario | src/hooks/useScrollHandler.ts:32-72 | Readings under the threshold deliver nothing. A larger reading schedules one delivery that hands on exactly that reading. After teardown nothing more is scheduled. |
| ScrollHandler.ThresholdDeltaQualifies | src/hooks/useScrollHandler.ts:41 | The comparison is strict: a move of exactly the threshold on either axis is not negligible. |
| InfiniteScroll.Remaining | src/hooks/useInfiniteScroll.ts:19-23 | The viewport's bottom edge plus what is left equals the document height. |
| InfiniteScroll.NearBottomIsRemainingWithin | src/hooks/useInfiniteScroll.ts:23 | The source's comparison holds exactly when what is left below the viewport is at most the threshold. |
| InfiniteScroll.LoadMoreCalls | src/hooks/useInfiniteScroll.ts:16-26 | A scroll event calls onLoadMore at most once. It never calls it while loading or with no more pages. Otherwise it calls it exactly when the document left below the viewport is at most the threshold, boundary included. |
| InfiniteScroll.DefaultLoadMoreCalls | src/hooks/useInfiniteScroll.ts:14 | Without a threshold, the trigger distance is 200 pixels. |
| InfiniteScroll.ScrollingDownKeepsTrigger | src/hooks/useInfiniteScroll.ts:23 | With the same window and document, scrolling further down never turns the trigger off. |
| InfiniteScroll.LargerThresholdFiresEarlier | src/hooks/useInfiniteScroll.ts:23 | A larger threshold fires whenever a smaller one does. |
| InfiniteScroll.BottomReachedFires | src/hooks/useInfiniteScroll.ts:17-25 | With a non-negative threshold, reaching the bottom of the document while idle with more pages always asks for more. |
| InfiniteScroll.TotalCalls | src/hooks/useInfiniteScroll.ts:16-31 | A run of scroll events makes no more calls than events, and none while loading or with no more pages. |
| InfiniteScroll.TotalCallsCountsNearBottom | src/hooks/useInfiniteScroll.ts:16-26 | The handler is not debounced: every event near the bottom is its own onLoadMore call. |
| InfiniteScroll.DefaultThresholdExample | src/hooks/useInfiniteScroll.ts:14-23 | At the default threshold, 200 px left fires, 201 px left does not, and a loading page never fires. |
| Tags.TrimStart | src/utils/tags.ts:12 | The result is a suffix of the input. What was dropped is all whitespace, and the result does not start with whitespace. |
| Tags.TrimEnd | src/utils/tags.ts:12 | The result is a prefix of the input. What was dropped is all whitespace, and the result does not end with whitespace. |
| Tags.Trim | src/utils/tags.ts:12-16 | The trimmed text has no whitespace at either end. |
| Tags.TrimIsSlice | src/utils/tags.ts:12-16 | The trimmed text is the slice of the input between a whitespace-only prefix and a whitespace-only suffix. |
| Tags.Split | src/utils/tags.ts:11-15 | Splitting gives at least one segment, and no segment holds the separator. |
| Tags.JoinSplit | src/utils/tags.ts:11-15 | Joining the segments with the separator gives back the text, so the segments are exactly the pieces between separators, in order. |
| Tags.SplitJoin | src/utils/tags.ts:11-15 | Splitting segments joined by a separator they lack gives the segments back. |
| Tags.SplitNoSeparator | src/utils/tags.ts:11-15 | A text without the separator is one segment. |
| Tags.Clean | src/utils/tags.ts:12-13 | Cleaning keeps no more segments than it got, and each kept one is non-empty and trimmed. |
| Tags.CleanSingle | src/utils/tags.ts:12-13 | One segment cleans to its trim, or to nothing when that trim is empty. With `CleanAppend` this fixes the whole cleaned list, in order. |
| Tags.CleanMembers | src/utils/tags.ts:12-13 | A string is kept if and only if it is non-empty and is the trim of one of the segments. |
| Tags.CleanAppend | src/utils/tags.ts:12-13 | Cleaning works segment by segment and keeps their order. |
| Tags.Separator | src/utils/tags.ts:9 | The text is cut on a comma exactly when it holds one, and on a space otherwise. |
| Tags.ExtractTags | src/utils/tags.ts:6-18 | Empty alt text has no tags. Every tag is non-empty and has no whitespace at either end. |
| Tags.TagsLackSeparator | src/utils/tags.ts:9-17 | No tag holds the character it was cut on, and in either mode no tag holds a comma. |
| Tags.OnlySeparatorsAndWhitespace | src/utils/tags.ts:9-17 | Alt text made only of commas and whitespace has no tags. |
| Tags.CommaJoinedTags | src/utils/tags.ts:9-13 | Two or more clean, comma-free tags written as a comma-separated caption are extracted back unchanged. |
| Tags.SpaceJoinedTags | src/utils/tags.ts:9-17 | Clean tags free of commas and spaces written as a space-separated caption are extracted back unchanged. |

## Left out

- Rendering, styling, routing, the photo API client, the detail page and the search hooks (`useSearch`, `useDebounce`, `usePhotos`, `usePhotoDetail`) are not part of this model.
- Real time is not modelled. The 100 ms debounce of raw readings (`useDebounce`) and the 50 ms delivery timer are abstract: a `Reading` is one debounced reading and `Fire` is the timer going off.
- Listener registration (`addEventListener` / `removeEventListener`) is reduced to the `mounted` flag of the gate. The infinite-scroll hook's effect is reduced to calling `LoadMoreCalls` once per event.
- The raw scroll listener of the gate (useScrollHandler.ts:57-62) and its initial `window.innerHeight` reading (useScrollHandler.ts:20-23) only feed the debounce. Readings enter the model already debounced.
- JavaScript numbers are IEEE doubles, while the model uses exact reals. Rounding, `Infinity` and `NaN` are not modelled.
- Masonry.ColumnCount: requires width + gap ≠ 0. With a zero pitch the source divides by zero. A positive container width plus gap gives `Infinity`, and a zero one gives `NaN`. Either way `new Array` throws a RangeError at useVirtualizedMasonry.ts:39. A negative container width plus gap gives `-Infinity`, which clamps to one column.
- Masonry.ItemHeight: requires photos with positive width and height (`AllWellFormed`). In the source, a zero height makes the aspect ratio `Infinity` and the display height 0. A zero width makes the aspect ratio 0 and the display height `Infinity`.
- MasonryHook.VirtualizedMasonry.TotalHeight: requires at least one column. Before the geometry effect runs, the source's `Math.max()` of an empty array is `-Infinity`.
- The effect at useVirtualizedMasonry.ts:95-97 reruns `calculateLayout` only when the callback changes, and it is not a separate operation: calling `CalculateLayout` is that run. The callback's dependencies are the photos, the column count, the item width, the gap and the container height (line 83). They leave out the container width and the scroll offset. So a resize that changes only the container width, and keeps the column count, the container height and the photos, resets the accumulators to zeros (line 39). Nothing then lays them out again until the next scroll or a change of photos or container height. `ResizeScenario` traces this. A resize that also changes the container height (MasonryGrid.tsx:81-85 sets both) changes the callback, and the rerun effect lays the columns out again.
- React state batching is not modelled: the source sets state asynchronously, and here setting takes effect at once.
- Masonry.PlacementOfItem: the left edge and the height are stated through `ColumnLeft` and `ItemHeight` instead of as products, which keeps nonlinear terms out of the proofs. `ColumnLeft` is defined as the column index times the pitch; its ensures state that column 0 starts at 0 and that a non-negative pitch gives a non-negative left edge, and `ColumnsDoNotOverlap` states the spacing. The aspect-ratio meaning of `ItemHeight` is proved in its own contract.
- The layout has no overscan. The code filters by the bare window [scrollTop, scrollTop + containerHeight]. The constants define `OVERSCAN_PX` (src/constants/index.ts:12), but the hook never uses it. The model follows the code.
- The accumulator adds the gap after every photo, the last one included. So a single 1000 × 500 photo gives a total height of 170: its display height of 150 plus one trailing gap (see `SinglePhotoExample`).

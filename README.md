# Pushpop table view, modelled in Dafny

This project models the core of Pushpop's virtualised table view.

- **The rendered window.** Only a window of rows exists as live cells: the rows visible at the current scroll position, plus up to one viewport of buffer rows above and below. Blank margins above and below the window stand in for the rows that are not rendered. Two scroll thresholds decide when the scroll handler redraws.
- **The cell pool.** A cell that leaves the window is prepared for reuse. It goes back to a pool of reusable cells keyed by reuse identifier. A cell that enters the window is taken from that pool, or built from the registered cell prototype.
- **Selection.** The table view keeps a list of selected row indexes. Each shown cell displays its row's selection state.
- **The data source.** The data source holds an in-memory data set and a filtered data set.
  - A search filters the data set with a filter function. When the new search string extends the last one, the search runs only over the last result.
  - Value helpers read and write the items' `value` properties: `getValuesArray`, `getValuesObject`, `setValuesFromObject` and `clearValues`.
  - Rows whose item holds an array of objects under the child data source key get a child data source.
- **The picker cell.** A picker cell of the older `pushpop-tableview` component keeps its chosen values in `_value` and mirrors them in its `data-value` attribute.

The modules follow the program's structure:

- `Seqs` (`seqs.dfy`): sequence helpers. These are first-occurrence removal, duplicate-freedom, integer ranges, and the rows outside an interval.
- `Window` (`window.dfy`): the window arithmetic of `draw`, as pure functions. It also holds lemmas about the rendered range, the margins and the thresholds. The rows left on screen by draw's list update, as written and corrected, are pure functions here too (see Findings).
- `Values` (`values.dfy`): JavaScript values, data-set items, and the specification functions of the value helpers.
  - Items are objects shared by reference, so `Item` is a class.
  - Its `fields` map stands for the item's properties.
- `Filtering` (`filtering.dfy`): the search pattern, the default title filter, and the accepted items of a filter.
  - It proves that an incremental search gives the same result as a full one.
  - It holds the as-written and corrected choice of the items to search (see Findings).
- `PickerCell` (`picker.dfy`): `split`/`join` on ",", the deduplication done by construction, and the class `TableViewPickerCell`.
- `Pushpop` (`table_view.dfy`): the classes `ReusableCellPrototypes`, `TableViewCell`, `TableView` and `TableViewDataSource`.
  - The structures the code mutates in place are objects of their own:
    - `CellArray` for `_renderedCells`;
    - `CellPool` for `_reusableCells`;
    - `IndexArray` for `_selectedRowIndexes`;
    - `ListElement` for the table view's `<ul>`, whose `children` are its cells in document order.
  - The events the table view triggers are appended to its `events` field.

Invariants kept by every operation:

- **Pool invariant** (`TableView.PoolValid`):
  - The rendered cells and all pooled cells are pairwise distinct.
  - Every pooled cell is reset and lies in the pool of its own reuse identifier.
  - Every cell belongs to this table view.
- **DOM invariant** (`TableView.DomValid`): the list element holds exactly the rendered cells, each once.
- **Window invariant** (`TableView.WindowShown`): after a draw, the list element shows the rows of the rendered window in row order. After a reset it shows nothing.
- **Selection invariant** (`TableView.SelectionShown`): at most one row is selected, and a shown cell is selected exactly when its row is.

## Model

| member | source | states |
|---|---|---|
| Window.ComputeLayout | pushpop-table-view/pushpop-table-view.js:271-281 | with at least one row, the rendered range brackets the visible range inside the rows (0 <= minRendered <= minVisible <= maxVisible <= maxRendered <= rows - 1) and 1 <= visible rows <= rows; an empty data set gives the window 0 .. -2 with a one-row bottom margin; the margins are the unrendered rows above and below times the row height |
| Window.MarginsCoverTotalHeight | pushpop-table-view/pushpop-table-view.js:389-394 | top margin, rendered rows and bottom margin together are exactly as tall as all rows (`getTotalHeight`, line 247) |
| Window.RenderedRangeAtMostThreeViewports | pushpop-table-view/pushpop-table-view.js:371-380 | the rendered range holds at most three viewports of rows |
| Window.RenderedBoundsClosedForm | pushpop-table-view/pushpop-table-view.js:371-380 | the rendered bounds are max(0, minVisible - visibleRows) and min(minVisible + 2 * visibleRows - 1, rows - 1) |
| Window.RenderedBoundsMonotoneInScroll | pushpop-table-view/pushpop-table-view.js:368-380 | for the same geometry, scrolling further down never moves either rendered bound up |
| Window.WindowsMoveTogether | pushpop-table-view/pushpop-table-view.js:404-429 | two windows of the same geometry are ordered the same way in both bounds, so a draw never moves one bound up and the other down |
| Window.FirstDrawIsWindowStep | pushpop-table-view/pushpop-table-view.js:466-471 | the first draw after a reset (window -1 .. -1) is a window move that draw's list update handles |
| Window.NextDrawIsWindowStep | pushpop-table-view/pushpop-table-view.js:404-431 | any draw following a draw of the same geometry, at any scroll position, is a window move that draw's list update handles |
| Window.WindowStepShowsNewWindow | pushpop-table-view/pushpop-table-view.js:404-431 | the rows the list update as written leaves on screen are exactly the new window for every window step |
| Window.GrowingViewportLeavesRowsUnrendered | pushpop-table-view/pushpop-table-view.js:404-431 | a viewport grown from 440 to 880 px at position 4400 over 1000 rows moves the window from 90 .. 119 to 80 .. 139, and the list update as written then shows rows 90 .. 139 |
| Window.ShownAfterUpdateIsNewWindow | pushpop-table-view/pushpop-table-view.js:404-431 | the corrected list update, which renders missing rows on both sides, shows exactly the new window for every move |
| Window.EnabledThresholdsAreNotSentinel | pushpop-table-view/pushpop-table-view.js:433-434 | an enabled scroll threshold is positive, so it never collides with the -1 that disables it |
| Window.DrawSettlesAtItsScrollPosition | pushpop-table-view/pushpop-table-view.js:59-68 | right after a draw at position s, the scroll handler does not trigger another draw at s |
| Window.BuffersCoverVisibleRowsUntilRedraw | pushpop-table-view/pushpop-table-view.js:59-68 | while the scroll handler does not redraw, every row visible at the new position is among the rows the last draw rendered |
| Window.ExampleThousandRowsAtTop | pushpop-table-view/pushpop-table-view.js:271-281 | 1000 rows of 44 px in a 440 px viewport, at the top: 10 visible rows, rows 0 .. 19 rendered |
| Window.ExampleThousandRowsAtRowHundred | pushpop-table-view/pushpop-table-view.js:368-380 | the same table scrolled to row 100: rows 90 .. 119 rendered |
| Window.ExampleThousandRowsAtRowFiveHundred | pushpop-table-view/pushpop-table-view.js:368-380 | the same table scrolled to row 500: rows 490 .. 519 rendered |
| Window.RowsToRenderAreMissingRows | pushpop-table-view/pushpop-table-view.js:404-428 | the corrected update renders exactly the rows of the new window that were not shown, each once |
| Window.JumpRendersRowsItReleasesAsWritten | pushpop-table-view/pushpop-table-view.js:404-431 | when the window jumps past its old maximum, the update as written renders lastMax + 1 .. maxR and releases lastMin .. minR - 1, so every row between the windows is rendered and released again; the corrected update renders exactly minR .. maxR |
| Window.JumpRendersRowsItReleases | pushpop-table-view/pushpop-table-view.js:404-431 | the jump from row 0 to row 500 of 1000 rows (window 0 .. 19 to 490 .. 519) renders 500 rows, 20 .. 519, and releases 490, 0 .. 489 |
| Window.FirstDrawAfterResetRendersRowsItReleases | pushpop-table-view/pushpop-table-view.js:404-431 | the first draw after a reset at row 100 (window -1 .. -1 to 90 .. 119) renders rows 0 .. 119 and releases rows -1 .. 89 |
| Filtering.DefaultFilterMonotone | pushpop-table-view/pushpop-table-view.js:1339-1343 | the default title filter is monotone: a pattern that extends another and is case-insensitive only if the other is accepts no item the other rejects |
| Filtering.AcceptedConcat | pushpop-table-view/pushpop-table-view.js:1060-1072 | filtering a concatenation filters each part, keeping data-set order |
| Filtering.AcceptedMembers | pushpop-table-view/pushpop-table-view.js:1060-1072 | an item is in the filtered set exactly when it is in the searched items and the filter accepts it; the filtered set is no longer than the searched items |
| Filtering.IncrementalFilterMatchesFullFilter | pushpop-table-view/pushpop-table-view.js:1056-1072 | when the new pattern accepts only items the old one accepts, filtering the old result gives the result of filtering everything |
| Filtering.MonotoneIncrementalFilterMatchesFullFilter | pushpop-table-view/pushpop-table-view.js:1056-1072 | the same for any monotone filter function and a narrowing search |
| Filtering.Filter | pushpop-table-view/pushpop-table-view.js:1064 | the filter loop returns the accepted items in order |
| Filtering.AsWrittenContinuationLosesMatches | pushpop-table-view/pushpop-table-view.js:1056-1075 | as written, a case-insensitive search "ab" continuing a case-sensitive search "a" misses the item titled "AB", which the full search finds |
| Filtering.AsWrittenFilterExactly | pushpop-table-view/pushpop-table-view.js:1056-1075 | as written, with a monotone filter and a previous filtered set from the last search, the incremental search gives exactly the full search whenever the new search ignores case only if the last one did, in particular when both use the same flag |
| Filtering.SearchedItemsFilterExactly | pushpop-table-view/pushpop-table-view.js:1056-1075 | with the corrected choice of searched items and a monotone filter, the incremental search gives exactly the full search |
| Values.OrDefault | pushpop-table-view/pushpop-table-view.js:921-922 | `name \|\| fallback`: a given name is kept, an empty one gives the fallback, and the result is non-empty whenever the fallback is |
| Values.ObjectItems | pushpop-table-view/pushpop-table-view.js:1127-1130 | an array value yields items exactly when all its elements are objects, one item per element in order |
| Values.ValuesArrayConcat | pushpop-table-view/pushpop-table-view.js:928-937 | the values array of a concatenation is the concatenation of the values arrays, so entries keep data-set order |
| Values.ValuesArrayOnePerDefinedValue | pushpop-table-view/pushpop-table-view.js:931-936 | there is exactly one entry per item whose value field is defined |
| Values.ValuesArrayValuesComeFromItems | pushpop-table-view/pushpop-table-view.js:931-936 | every entry carries the defined value of some item |
| Values.ValuesArrayNamesAreTruthy | pushpop-table-view/pushpop-table-view.js:934 | with a non-empty key field name, every entry's name is truthy (a falsy name becomes the key field name) |
| Values.ValuesObjectGroupsByName | pushpop-table-view/pushpop-table-view.js:958-967 | the values object without the null case: it has a key exactly for the names present; a name seen once maps to its value; a repeated name maps to the array of its values, or to the first value's array extended by the later ones |
| Values.ValuesObjectAsWrittenThrowsOnNull | pushpop-table-view/pushpop-table-view.js:958-967 | the code's loop throws exactly when some name is seen twice or more with null as its first value, and otherwise builds the values object described by ValuesObjectGroupsByName |
| Values.ValuesObjectAsWrittenThrowPersists | pushpop-table-view/pushpop-table-view.js:958-963 | once the entries so far throw, the whole call throws |
| Values.NullFirstValueThrows | pushpop-table-view/pushpop-table-view.js:961-963 | two entries named "c" with the values null and "x" make the code throw, where the values object groups them as [null, "x"] |
| Values.ValuesObjectKeys | pushpop-table-view/pushpop-table-view.js:958-967 | the keys of the values object are exactly the string forms of the names in the values array |
| Values.ValuesNamedNonEmpty | pushpop-table-view/pushpop-table-view.js:958-967 | some value is collected under a key exactly when some name's string form is that key |
| Values.ClearFieldsResult | pushpop-table-view/pushpop-table-view.js:1014-1017 | after clearing, the value field is defined exactly when it was defined or the default is truthy, and it then holds the truthy default or null |
| Values.ClearFieldsIdempotent | pushpop-table-view/pushpop-table-view.js:1014-1017 | clearing twice is clearing once |
| Values.FirstNamed | pushpop-table-view/pushpop-table-view.js:991-997 | the position found holds an item named by the key and no earlier item is so named; no position means no item is |
| Values.SetValuesWritesKey | pushpop-table-view/pushpop-table-view.js:990-999 | each key of the object is written to the first item with that name, whatever the other keys write |
| Values.SetValuesWritesFirstNamedOnly | pushpop-table-view/pushpop-table-view.js:990-999 | for every key with a named item, that first item ends with the key's value |
| Values.SetValuesLeavesOtherItems | pushpop-table-view/pushpop-table-view.js:990-999 | an item that is the first named item of no key keeps all its properties |
| Values.WriteAllKeepsNames | pushpop-table-view/pushpop-table-view.js:990-999 | writing values never renames an item, so later keys find the same items earlier keys found |
| PickerCell.JoinSplit | pushpop-tableview/pushpop-tableview.js:187 | joining the fields of a split at "," gives the string back |
| PickerCell.SplitJoin | pushpop-tableview/pushpop-tableview.js:239 | splitting the join of a non-empty list of values without "," gives the list back |
| PickerCell.DedupFirstOccurrences | pushpop-tableview/pushpop-tableview.js:191-192 | feeding values to multiple-mode `setValue` keeps each distinct value once, all of them, in order of first occurrence |
| PickerCell.DedupOfDistinct | pushpop-tableview/pushpop-tableview.js:191-192 | a list without duplicates is kept as is |
| PickerCell.MultipleRoundTrip | pushpop-tableview/pushpop-tableview.js:187-192 | a chosen list written to `data-value` and read back by a new multiple-mode picker is the same list, when the written attribute is not one jQuery reads as a falsy value |
| PickerCell.FalsyAttributeDoesNotRoundTrip | pushpop-tableview/pushpop-tableview.js:187 | the chosen list ["0"] is written as "0", which a new picker reads back as [""] |
| PickerCell.TableViewPickerCell.constructor | pushpop-tableview/pushpop-tableview.js:187-195 | the initial `data-value` is read as jQuery's `.data` and `\|\| ''` leave it ("false", "null" and "0" become ""); multiple mode: the deduplicated fields of that text; single mode: its first field |
| PickerCell.TableViewPickerCell.SetValue | pushpop-tableview/pushpop-tableview.js:229-253 | multiple mode: an already chosen value changes nothing, a new one is appended and the attribute is the join; single mode: the list is exactly the value; multiple mode keeps the list duplicate-free |
| PickerCell.TableViewPickerCell.RemoveValue | pushpop-tableview/pushpop-tableview.js:255-282 | multiple mode: the first occurrence goes, and a value not chosen changes nothing; single mode: the list and the attribute are emptied |
| Pushpop.DeselectEvents | pushpop-table-view/pushpop-table-view.js:751-756 | one DidDeselectRowAtIndex event per selected index, in order |
| Pushpop.PoolMoveToBucket | pushpop-table-view/pushpop-table-view.js:1630-1639 | a reset rendered cell moved to the end of its pool and out of the rendered cells keeps the pool invariant |
| Pushpop.PoolTakeLast | pushpop-table-view/pushpop-table-view.js:342-349 | popping the last cell of a non-empty pool into the rendered cells keeps the pool invariant |
| Pushpop.ReusableCellPrototypes.constructor | pushpop-table-view/pushpop-table-view.js:1777-1778 | the registry holds the base cell prototype under its own reuse identifier |
| Pushpop.ReusableCellPrototypes.Register | pushpop-table-view/pushpop-table-view.js:225-229 | a missing prototype, or one without a reuse identifier, is ignored; otherwise the prototype is stored under its identifier, replacing an earlier one |
| Pushpop.ReusableCellPrototypes.PrototypeFor | pushpop-table-view/pushpop-table-view.js:345-346 | the registered prototype of the identifier, or the base cell prototype when none is registered |
| Pushpop.ReusableCellPrototypes.GetReusableCellPrototypes | pushpop-table-view/pushpop-table-view.js:217-221 | every registered prototype exactly once, and nothing else; listed in registration order, which is the `for…in` order of the registry object when no reuse identifier is an integer-like string |
| Pushpop.TableViewCell.constructor | pushpop-table-view/pushpop-table-view.js:1518-1527 | an empty reuse identifier falls back to the prototype's; the new cell has no table view, no row, no selection, no data and no accessories |
| Pushpop.TableViewCell.SetIndex | pushpop-table-view/pushpop-table-view.js:1754 | the cell's row index is the given one |
| Pushpop.TableViewCell.SetSelected | pushpop-table-view/pushpop-table-view.js:1768-1774 | the cell's selected flag is the given one, and a rendered cell keeps the pool invariant |
| Pushpop.TableViewCell.SetAccessoryType | pushpop-table-view/pushpop-table-view.js:1691 | the "none" accessory type is stored as null; any other type is stored as given |
| Pushpop.TableViewCell.SetEditingAccessoryType | pushpop-table-view/pushpop-table-view.js:1711 | the "none" editing accessory type is stored as null; any other type is stored as given |
| Pushpop.TableViewCell.SetData | pushpop-table-view/pushpop-table-view.js:1662-1671 | the data is stored; a truthy `value` property of the data becomes the cell's value, and otherwise the value is untouched |
| Pushpop.TableViewCell.SetValue | pushpop-table-view/pushpop-table-view.js:1733-1740 | a cell without a table view or data source throws and changes nothing; otherwise the value is written through to the item's `value` property, and the cell takes the value unless the write throws because the data source has no table view; the data source's table view changes only by DidChangeValueForItemInDataSource, triggered exactly when the item's value changes, with the new and the previous value |
| Pushpop.TableViewCell.PrepareForReuse | pushpop-table-view/pushpop-table-view.js:1620-1646 | the cell leaves the list element and the rendered cells (first occurrence), joins the end of its pool and is reset, keeping the pool and DOM invariants |
| Pushpop.TableView.constructor | pushpop-table-view/pushpop-table-view.js:50-53 | a new table view starts with no rendered cells, an empty pool and no selected rows, and an empty list element; the prototype's defaults also hold: a row height of 44 (line 560), no data source (517), not drawing (355), rendered-row indexes of -1 (299, 306) and scroll thresholds of -1 (254, 261) |
| Pushpop.TableView.MoveToPool | pushpop-table-view/pushpop-table-view.js:1624-1639 | the pool half of `prepareForReuse`: detach, append to the pool, splice from the rendered cells, keeping both invariants |
| Pushpop.TableView.GetReusableCellsWithIdentifier | pushpop-table-view/pushpop-table-view.js:323-326 | the identifier's pool is returned, created empty when missing, and no other pool changes |
| Pushpop.TableView.DequeueReusableCellWithIdentifier | pushpop-table-view/pushpop-table-view.js:336-353 | a non-empty pool gives up its last cell, which keeps its value, and the pool loses exactly that cell; otherwise a new cell of the registered (or base) prototype is built with a null value and the identifier's pool is left empty; either way the cell is appended to the rendered cells and bound to this table view, keeping the pool invariant |
| Pushpop.TableView.IsRowSelectedAtIndex | pushpop-table-view/pushpop-table-view.js:635-639 | true exactly when the row index is among the selected ones |
| Pushpop.TableView.IndexForSelectedRow | pushpop-table-view/pushpop-table-view.js:614-617 | the first selected row, or -1 when none is selected; with one selected row it is that row |
| Pushpop.TableView.RenderedCellAtIndex | pushpop-table-view/pushpop-table-view.js:293-297 | the first rendered cell showing the row, or null when no rendered cell shows it |
| Pushpop.TableView.AppendRows | pushpop-table-view/pushpop-table-view.js:410-414 | the old children stay in place and exactly the cells rendered for rows from .. to follow them, in increasing row order, each new to the list and shown with the selection state of its row |
| Pushpop.TableView.PrependRows | pushpop-table-view/pushpop-table-view.js:424-428 | the old children stay in place and exactly the cells rendered for rows from .. to precede them, rendered in decreasing order so that they end up in increasing row order, each new to the list and shown with the selection state of its row |
| Pushpop.TableView.AppendRow | pushpop-table-view/pushpop-table-view.js:410-413 | one step of the appending loop: the next row is rendered and becomes the last child, new to the list |
| Pushpop.TableView.PrependRow | pushpop-table-view/pushpop-table-view.js:424-427 | one step of the prepending loop: the row below the prepended ones is rendered and becomes the first child, new to the list |
| Pushpop.TableView.ReleaseRows | pushpop-table-view/pushpop-table-view.js:431 | the rendered cell of each row lo .. hi, if any, is prepared for reuse: the list element is the old one without exactly the cells of those rows (Released, via Keep), so the other cells stay, in order, and show the rows outside lo .. hi |
| Pushpop.TableView.ReleaseLeadingRows | pushpop-table-view/pushpop-table-view.js:431 | the removal loop after appending: of the children, showing rows n, n + 1, ..., the one at position k stays exactly when n + k is at least t, and no cell joins |
| Pushpop.TableView.ReleaseTrailingRows | pushpop-table-view/pushpop-table-view.js:431 | the removal loop after prepending: of the children, showing rows n, n + 1, ..., the one at position k stays exactly when n + k is at most t, and no cell joins |
| Pushpop.KeptAbove | pushpop-table-view/pushpop-table-view.js:431 | releasing rows lo .. t - 1 from cells showing n .. top (lo at most n) keeps exactly the positions k with n + k at least t, and nothing else |
| Pushpop.KeptBelow | pushpop-table-view/pushpop-table-view.js:431 | releasing rows t + 1 .. m from cells showing n .. m keeps exactly the positions k with n + k at most t, and nothing else |
| Pushpop.StaysAfterAppending | pushpop-table-view/pushpop-table-view.js:404-431 | after appending, an old cell stays exactly when its row is in the new window |
| Pushpop.StaysAfterPrepending | pushpop-table-view/pushpop-table-view.js:418-431 | after prepending, an old cell stays exactly when its row is in the new window |
| Pushpop.TableView.RenderHigherRows | pushpop-table-view/pushpop-table-view.js:404-431 | rows lastMax + 1 .. maxR are newly rendered and appended (|added| of them), then the cells of rows lastMin .. minR - 1 are released: of the old children followed by the added cells, the one at position k stays exactly when its row b + k is at least minR, and nothing else joins; the list then shows exactly minR .. maxR |
| Pushpop.TableView.RenderLowerRows | pushpop-table-view/pushpop-table-view.js:418-431 | rows minR .. lastMin - 1 are newly rendered and prepended (|added| of them), then the cells of rows maxR + 1 .. lastMax are released: of the added cells followed by the old children, the one at position k stays exactly when its row minR + k is at most maxR, and nothing else joins; the list then shows exactly minR .. maxR |
| Pushpop.TableView.UpdateRows | pushpop-table-view/pushpop-table-view.js:404-431 | for every window step (which any two draws of one geometry make): as many cells are newly rendered as RowsRenderedAsWritten names, the positions that stay are those of RenderHigherRows or RenderLowerRows, an old child stays exactly when its row is in the new window, every child is old or newly rendered, an unmoved window changes no cell, pool or list, and the list shows exactly the new window |
| Pushpop.TableView.DrawWindow | pushpop-table-view/pushpop-table-view.js:366-451 | a draw records the window, margins, thresholds and geometry and triggers DidDrawRowsWithIndexes; it renders as many new cells as RowsRenderedAsWritten names, keeps exactly the old children whose rows are in the new window, adds no others, leaves cells, pool and list untouched when the window did not move, and shows the computed layout, keeping the pool, DOM and selection invariants |
| Pushpop.TableView.Draw | pushpop-table-view/pushpop-table-view.js:362-451 | while a draw is in progress nothing changes and no cell is rendered; otherwise the window of the current scroll position is shown, the thresholds are set and DidDrawRowsWithIndexes is triggered, with the same account of rendered, kept and released cells as DrawWindow, and shown cells hold the items of their rows |
| Pushpop.TableView.DrawFlagged | pushpop-table-view/pushpop-table-view.js:364-443 | draw past its guard: the flag is set, the rows are drawn with the account of DrawRows, and the flag is clear again, keeping every invariant |
| Pushpop.TableView.DrawRows | pushpop-table-view/pushpop-table-view.js:366-441 | the window of the current scroll position is drawn as DrawWindow states, a cell that showed its item keeps it, every new cell shows its own, and every invariant holds again |
| Pushpop.TableView.ReloadData | pushpop-table-view/pushpop-table-view.js:456-474 | every rendered cell goes back to the pool, the window is reset and the table is drawn afresh, so every shown cell shows its row of the current filtered data set |
| Pushpop.TableView.ReleaseRenderedCells | pushpop-table-view/pushpop-table-view.js:459-464 | every previously rendered cell ends reset in its pool, and the rendered cells and the list element are empty |
| Pushpop.TableView.Scroll | pushpop-table-view/pushpop-table-view.js:59-68 | a scroll to y redraws exactly when no draw is in progress and y is below an enabled minimum threshold or at or above an enabled maximum threshold; otherwise the window stays as it is |
| Pushpop.TableView.SetDataSource | pushpop-table-view/pushpop-table-view.js:530-543 | the data source is bound both ways, DidChangeDataSource is triggered with the previous data source, and the rows are reloaded from the new one |
| Pushpop.TableView.ShownRowsDistinct | pushpop-table-view/pushpop-table-view.js:404-431 | the cells shown after a draw show pairwise distinct rows |
| Pushpop.TableView.SelectRowAtIndex | pushpop-table-view/pushpop-table-view.js:652-670 | when the data source allows it, every row is deselected (with its events) and the row becomes the only selected one, shown selected; otherwise nothing changes |
| Pushpop.TableView.DeselectRowAtIndex | pushpop-table-view/pushpop-table-view.js:719-743 | the first occurrence of the row leaves the selection, its shown cell is unselected, other cells keep their state, and DidDeselectRowAtIndex is triggered |
| Pushpop.TableView.DeselectAllRows | pushpop-table-view/pushpop-table-view.js:748-763 | one DidDeselectRowAtIndex per selected row in order, then no row is selected and no shown cell is selected |
| Pushpop.TableViewDataSource.constructor | pushpop-table-view/pushpop-table-view.js:871-874 | a missing data set becomes the empty one, so the filtered set is the data set; the default reuse identifier applies when none is given |
| Pushpop.TableViewDataSource.ShouldReloadTableForSearchString | pushpop-table-view/pushpop-table-view.js:1039-1077 | no data set: false and no change; no filter or an empty search: no search in force, the filtered set is the data set, and the answer is whether it was a different array; otherwise true, the search string is recorded, and the filtered set is the accepted items of the previous filtered set when the search string extends the last one (a missing one read as "null"), of the whole data set when not |
| Pushpop.TableViewDataSource.SetDataSet | pushpop-table-view/pushpop-table-view.js:1231-1237 | the new data set with no search in force and the filtered set equal to it; a bound table view is reloaded and then shows the rows of the new set |
| Pushpop.TableViewDataSource.GetValuesArray | pushpop-table-view/pushpop-table-view.js:920-940 | no data set: None, since getNumberOfItems throws; otherwise the loop returns the values array of the data set with the default field names applied |
| Pushpop.TableViewDataSource.GetValuesObject | pushpop-table-view/pushpop-table-view.js:953-970 | None when the code throws, either without a data set or on a repeated name whose first value is null; otherwise the values object of the data set's values array, as ValuesObjectAsWritten gives it |
| Pushpop.TableViewDataSource.GroupValues | pushpop-table-view/pushpop-table-view.js:958-967 | the grouping loop returns what ValuesObjectAsWritten gives for the values array, None where the code throws |
| Pushpop.TableViewDataSource.SetValuesFromObject | pushpop-table-view/pushpop-table-view.js:981-1003 | no object: nothing changes and nothing throws, even without a data set; an object without a data set throws before any write; otherwise each item ends with the properties the key-by-key writes give it, from the state before the call; a bound table view is reloaded, and when it is bound to this data source and not drawing, each of its cells holds the filtered item of its row |
| Pushpop.TableViewDataSource.ClearValues | pushpop-table-view/pushpop-table-view.js:1005-1022 | no data set: the call throws and no item changes; otherwise every item of the data set is cleared once, as ClearFields states; a bound table view is reloaded, and when it is bound to this data source and not drawing, each of its cells holds the filtered item of its row |
| Pushpop.TableViewDataSource.GetChildDataSourceForRowAtIndex | pushpop-table-view/pushpop-table-view.js:1101-1140 | a child is returned exactly for rows that hold an array under the child data source key; it is a new data source over those objects that inherits the key, the filter function, the selection rule and the default reuse identifier |
| Pushpop.TableViewDataSource.GetCellForRowAtIndex | pushpop-table-view/pushpop-table-view.js:895-908 | the item reuse identifier's (or default's) pool gives up its last cell, or, when empty, a new cell of the registered prototype is built; the cell gets the row index, the item's accessory types (or the defaults, "none" stored as null) and the item; a truthy item value becomes the cell's value, otherwise a reused cell keeps the value of its previous row and a new one is null |
| Pushpop.TableViewDataSource.DequeueCellForItem | pushpop-table-view/pushpop-table-view.js:896-900 | the cell comes from the pool of the item's reuse identifier, or the default one: the last pooled cell, removed from its bucket and keeping its value, or, when the bucket is empty, a new cell of the registered prototype with a null value; it is recorded as rendered and nothing else in the pool changes |
| Pushpop.TableViewCell.Fill | pushpop-table-view/pushpop-table-view.js:902-905 | the cell gets the row index, the stored accessory types ("none" becomes null) and the item, and the item's truthy value or else its previous value; the pool, the rendered cells and the set of cells are unchanged |
| Pushpop.TableViewDataSource.SetValueForKeyOnItem | pushpop-table-view/pushpop-table-view.js:1320-1337 | no item, no key or an unchanged value changes nothing and triggers nothing; otherwise the property is written, and DidChangeValueForItemInDataSource reports the new and the previous value, or the call throws after the write when the data source has no table view |

## Left out

- The DOM, jQuery, CSS classes, HTML templates, the loading message and spinner, touch and mouse gestures, the accessory-button handlers and the editing mode are not modelled. The list element is reduced to its ordered child cells.
- The scroll view is reduced to its scroll position, viewport height and margins. Its own scrolling, the DidScrollToTop handler (which only calls `draw`) and the scroll position that `reloadData` saves and restores are not modelled. The model's draw never changes the scroll position.
- The search bar, the view stack, navigation to child table views, parent table views and events triggered on them are not modelled.
- Initialising a table view from `<li>` elements or JSON in the markup is not modelled. Neither are the cell subclasses with their own HTML, `didReceiveTap` and `getAccessoryType` overrides. Cells differ only by the prototype kind they were built from.
- The regular expression engine is not modelled. A search pattern is its source text and its `i` flag. The default filter is substring containment over ASCII-folded text, which is what `/s+/` tests for a search string without metacharacters. The `m` flag and the `+` quantifier make no difference to `test` there. Other filter functions are arbitrary functions of pattern and properties.
- JavaScript numbers are modelled as unbounded integers. Scroll positions, heights and indexes are integers, and `Math.floor`/`Math.ceil` are written out for non-negative operands.
- `===` on values is modelled as structural equality, so two distinct arrays with equal elements compare equal. The identity of arrays is kept only where it decides something: `filteredIsDataSet` records whether the filtered set is the data set array itself. `SetDataSet` treats the array it receives as a new reference, a modelling choice. When the caller passes the current array again, the code's `!==` test would differ, but only in the result of `shouldReloadTableForSearchString`, which `setDataSet` discards. Either way the filtered set afterwards is that array.
- Pushpop.ReusableCellPrototypes.GetReusableCellPrototypes: the prototypes are listed in registration order. JavaScript's `for…in` lists integer-like keys such as "7" first, in ascending numeric order, and only then the other keys in insertion order. That reordering of integer-like reuse identifiers is not modelled.
- Pushpop.TableView.GetReusableCellsWithIdentifier: `_reusableCells` is a `{}` literal, so an identifier that names an Object.prototype member, such as "constructor", "hasOwnProperty", "toString", "valueOf" or "__proto__", finds that inherited member at line 325 instead of an empty bucket. The model treats every identifier as its own key, with no bucket until one is created. Such identifiers can come from an item's `reuseIdentifier` (line 897).
- Pushpop.TableView.DequeueReusableCellWithIdentifier: for "constructor" or "hasOwnProperty" the inherited function has a positive `length`, and `pop()` at line 343 throws. For "toString", "valueOf" or "__proto__", line 346 builds a Function or String object rather than a cell, and `setIndex` at line 902 throws. The model returns a working cell for these identifiers instead of modelling the throw.
- Pushpop.ReusableCellPrototypes.PrototypeFor: the registry `_reusableCellPrototypes` (line 216) is also a `{}` literal. For an unregistered identifier that names an Object.prototype member, the lookup at line 223 returns the inherited member, and line 346 builds from it. The model returns the base cell prototype instead, as it does for any unregistered identifier.
- `setValuesFromObject` takes the object as its own-key/value pairs in enumeration order. Inherited enumerable keys are not modelled. Neither is the prototype chain `getValuesObject` could see under keys such as `constructor`.
- `selectRowAtIndex`: the deferred DidSelectRowAtIndex event (`window.setTimeout`), child data source navigation and `forceReflow` are not modelled.
- `getIndexesForSelectedRows` returns the live array. Aliasing through it is not modelled.
- `draw` dereferences the data source unconditionally. The model follows the code and requires one, rather than treating a missing data source as a no-op.
- The events are appended to the table view's `events` log rather than delivered to handlers. The model appends DidDrawRowsWithIndexes while its drawing flag is still set. The code clears `_drawing` (line 443) before it triggers the event (lines 445-450), so a handler could see the difference, but no handler is modelled.
- The drawing flag: while a draw is in progress nothing in the model runs, so `Draw`, `ReloadData` and `Scroll` only state that such a call leaves the window alone.
- Pushpop.TableViewDataSource.ShouldReloadTableForSearchString: its ensures states which items are searched and filtered, as the code chooses them. When that equals filtering the whole data set is stated separately, by Filtering.AsWrittenFilterExactly. The data source keeps no case flag of the last search, so the method's ensures cannot state it.
- Pushpop.TableViewDataSource.GetChildDataSourceForRowAtIndex: requires a truthy child value to be an array of objects. The code would also build a data source from another truthy value, which `selectRowAtIndex` never asks for, since it checks `rowHasChildDataSourceAtIndex` first.
- Pushpop.TableViewDataSource.RowHasChildDataSourceAtIndex: has no contract of its own. It is the partner of GetChildDataSourceForRowAtIndex, whose ensures relates the two.
- Values.SetValuesWritesKey, Values.SetValuesWritesFirstNamedOnly, Values.SetValuesLeavesOtherItems and Values.WriteAllKeepsNames: these assume the key field and the value field differ. With equal names a write renames the item it writes to.
- Pushpop.TableViewDataSource.GetValuesObject: an array first value is the item's own array, and the code pushes the later values into it in place, so the data set changes and a second call sees the longer array. The model's values are immutable, so this growth is not modelled. Neither is an object first value with its own truthy `push` property, on which the code would call that property.
- Values.ValuesObjectGroupsByName: the array it states for a repeated name whose first value is an array is the values object's entry. In the code that array is also the item's own property value, grown in place.
- Pushpop.TableView.Draw, Pushpop.TableView.Scroll and Pushpop.TableView.UpdateRows: the viewport height is fixed at construction and the row height is the default 44. `setRowHeight` and resizing are not modelled. Draw and Scroll require the row count, viewport height and row height of the last draw to still hold (DrawAdmissibleAt), and UpdateRows requires a window step. What the list update as written does when the geometry changes between draws is stated by Window.ShownAfterUpdateAsWritten (see Findings).
- PickerCell.TableViewPickerCell.constructor: only the attributes "false", "null" and "0" are converted. jQuery's other conversions are not modelled: numeric text that some jQuery versions normalise, such as "1.50", and bracketed text parsed as JSON that then reads as other text, such as "[]". Neither is the array that `setValue` stores with `.data`, which a later read of the same element would return.
- PickerCell.TableViewPickerCell.SetValue: compares chosen values as strings, where the code uses `==`. The text lookup, the value cells and the checkmarks it adds are not modelled.

## Findings

| source | as written | input that shows it | evidently intended | confidence | as-written member | corrected member |
|---|---|---|---|---|---|---|
| pushpop-table-view/pushpop-table-view.js:1060-1075 | a search whose string extends the last search string filters only the previous filtered set, whatever the case flags of the two searches | a case-sensitive search "a", then a case-insensitive search "ab", over one item titled "AB": the first search filters the item out, so the second finds nothing, although "AB" matches /ab+/i | reuse the previous result only when the new search is case-insensitive only if the last one was, so that an incremental search gives exactly what a search of the whole data set gives | not executed | Filtering.SearchedItemsAsWritten, Filtering.AsWrittenContinuationLosesMatches | Filtering.SearchedItems, Filtering.SearchedItemsFilterExactly |
| pushpop-table-view/pushpop-table-view.js:961-963 | for a repeated name the code reads `push` of the value collected so far, which throws a TypeError when that value is null | two items named "c" whose values are null and "x"; `clearValues` writes null to every item without a default value | treat a null first value like any other non-array value and collect [null, "x"] | not executed | Values.ValuesObjectAsWritten, Values.NullFirstValueThrows | Values.ValuesObject, Values.ValuesObjectGroupsByName |
| pushpop-table-view/pushpop-table-view.js:404-431 | draw renders rows on one side of the old window only: higher rows from the old maximum up, or else lower rows from the old minimum down | 1000 rows of 44 px scrolled to 4400 with the viewport grown from 440 to 880 px: the window moves from 90 .. 119 to 80 .. 139, rows 120 .. 139 are appended, rows 80 .. 89 are never rendered, and the list starts with row 90 under a top margin sized for row 80 | render the missing rows on both sides when the window grows in both directions | low, not executed | Window.ShownAfterUpdateAsWritten, Window.GrowingViewportLeavesRowsUnrendered | Window.ShownAfterUpdate, Window.ShownAfterUpdateIsNewWindow |
| pushpop-table-view/pushpop-table-view.js:404-431 | when the window moves past its old maximum, draw renders every row from the old maximum + 1 up to the new maximum, then releases every row from the old minimum up to the new minimum - 1; the rows between the two windows are rendered only to be prepared for reuse straight away | 1000 rows of 44 px in a 440 px viewport scrolled from 0 to 22000: the window moves from 0 .. 19 to 490 .. 519, 500 cells are rendered (rows 20 .. 519) and 490 released (rows 0 .. 489), so rows 20 .. 489 are rendered for nothing; likewise the first draw after `reloadData` at row 100 renders rows 0 .. 119 to show 90 .. 119 | render only the rows of the new window that were not shown, from the larger of the old maximum + 1 and the new minimum; the list ends up the same, with less work | low, not executed; the list shown is right either way | Window.RowsRenderedAsWritten, Window.JumpRendersRowsItReleasesAsWritten, Window.JumpRendersRowsItReleases | Window.RowsToRender, Window.RowsToRenderAreMissingRows |

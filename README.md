# Responsive table component: column selection and duplicate check

This project models the generic table component `TableComponent` of the
front-end. Once its column definitions are available, the component collects
the column names in declaration order. It keeps that list as its working list
and subscribes to the viewport breakpoint observer. A notification delivered
during that subscription already narrows the displayed list. The component then
compares the names with duplicates removed against the displayed list, and
logs an error when the first is shorter. On every breakpoint notification it
recomputes the displayed list from the working list.

- XSmall shows the first and the last column.
- Small, Medium and Large show the columns at indices 0..2, 0..3 and 0..4, plus the last column.
- XLarge shows every column.

When several tiers match, the narrowest one wins. When none matches, the
displayed list stays as it was. Destroying the component fires a teardown
signal, and notifications after it no longer update the display.

Files and modules:

- `array_ops.dfy`, module `ArrayOps`: the two JavaScript array operations the component relies on. `Filter` is `Array.prototype.filter` with an `(item, index)` callback. `IndexOf` is `findIndex` with strict equality, returning -1 when the value is absent. The module also defines `IsSubsequence` and `NoDuplicates` and proves lemmas about filtering.
- `layout.dfy`, module `Layout`: the tiers and the per-tier index tests, copied branch by branch (`Keeps`). It defines `Visible`, the filter the subscription callback applies, and `Select`, its if/else-if chain. It proves the closed form, the lengths, first and last retention, subsequence and monotonicity.
- `duplicates.dfy`, module `Duplicates`: the first-occurrence filter, and the intended duplicate check, which holds exactly when a name repeats.
- `table.dfy`, module `Table`: the class `TableComponent`. Its fields are `declared` (the working list, `doubleColumnToDisplay` in the source), `visible` (`columnsToDispaly`), and `subscribed` (a live breakpoint subscription, ended by the teardown subject). Its methods are `AfterViewInit`, `OnBreakpoint` and `Destroy`. The module also states the duplicate check as the code writes it. Three client methods walk through short life cycles.

The breakpoint observer is an input. Each notification is the set of tiers that
currently match. The one delivered while subscribing is the `first` argument of
`AfterViewInit`, and later ones are passed to `OnBreakpoint`. The error log is
the boolean `reported` that `AfterViewInit` returns.

Empty declarations and duplicate names are not excluded by a precondition.
An empty list gives an empty display. After a duplicate is reported, the working
list keeps its duplicates and the subscription stays live.

## Model

| member | source | states |
|---|---|---|
| `ArrayOps.IndexOf` | src/app/shared/component/table/table/table.component.ts:115 | `findIndex` returns -1 exactly when the value is absent. Otherwise it returns an index holding the value with no earlier occurrence. |
| `ArrayOps.FilterIsSubsequence` | src/app/shared/component/table/table/table.component.ts:148-186 | An index-based `filter` returns an order-preserving subsequence of its input. |
| `ArrayOps.FilterKeepsAll` | src/app/shared/component/table/table/table.component.ts:180-186 | A callback that accepts every index returns the input unchanged. |
| `ArrayOps.FilterSkips` | src/app/shared/component/table/table/table.component.ts:148-178 | A run of indices the callback rejects adds nothing to the result. |
| `ArrayOps.FilterWeaker` | src/app/shared/component/table/table/table.component.ts:148-186 | When one callback accepts at least what another accepts, the stricter result is a subsequence of the looser one. |
| `Layout.Select` | src/app/shared/component/table/table/table.component.ts:147-187 | Selection finds no tier exactly when the matched set is empty. Otherwise the chosen tier is matched and no matched tier is narrower. |
| `Layout.VisibleXLarge` | src/app/shared/component/table/table/table.component.ts:179-186 | XLarge shows the declared list unchanged. |
| `Layout.VisibleNarrow` | src/app/shared/component/table/table/table.component.ts:147-178 | Let k be the cutoff, 0, 2, 3 or 4. With at most k + 2 columns, the tier shows all of them. Otherwise it shows the first k + 1 columns followed by the last one. |
| `Layout.VisibleLength` | src/app/shared/component/table/table/table.component.ts:147-186 | A narrow tier shows min(n, k + 2) columns. XLarge shows all n columns. |
| `Layout.VisibleXSmall` | src/app/shared/component/table/table/table.component.ts:147-154 | XSmall shows nothing for no columns and the single column for one. Otherwise it shows exactly the first and the last column. |
| `Layout.VisibleKeepsEnds` | src/app/shared/component/table/table/table.component.ts:150-183 | For a non-empty list, every tier shows the first declared column first and the last declared column last. |
| `Layout.VisibleIsSubsequence` | src/app/shared/component/table/table/table.component.ts:148-186 | Every tier shows an order-preserving subsequence of the declared columns. |
| `Layout.VisibleMonotone` | src/app/shared/component/table/table/table.component.ts:147-186 | What a narrower tier shows is a subsequence of what any wider tier shows. |
| `Layout.Examples` | src/app/shared/component/table/table/table.component.ts:147-186 | For columns A..F, XSmall shows A, F. Small shows A, B, C, F. Medium shows A, B, C, D, F. Large shows all six. A single column is shown at every tier. |
| `Duplicates.FirstOccurrenceAt` | src/app/shared/component/table/table/table.component.ts:113-116 | The callback `index === self.findIndex(...)` accepts a name exactly when that name does not occur earlier. |
| `Duplicates.FirstOccurrencesPrefix` | src/app/shared/component/table/table/table.component.ts:113-116 | On every prefix, the filter keeps no name twice and drops no name. It keeps the whole prefix exactly when the prefix has no duplicates. |
| `Duplicates.FirstOccurrencesSound` | src/app/shared/component/table/table/table.component.ts:113-116 | The first-occurrence filter yields a duplicate-free subsequence containing every input name. |
| `Duplicates.DuplicateErrorIff` | src/app/shared/component/table/table/table.component.ts:113-123 | The first-occurrence filter is shorter than the names exactly when some name occurs twice. This is the check as intended. |
| `Table.ReportsAsWrittenSound` | src/app/shared/component/table/table/table.component.ts:113-123 | The check as written, against the displayed list, never reports a list without duplicates. It reports exactly the lists with duplicates when the notification at subscription matches no tier or XLarge is the narrowest match. |
| `Table.MissedDuplicate` | src/app/shared/component/table/table/table.component.ts:113-123 | `[A, B, A]` with XSmall matched at subscription has a duplicate, yet the check as written does not report it. |
| `Table.TableComponent.constructor` | src/app/shared/component/table/table/table.component.ts:83-96 | Both lists start empty, with no subscription. |
| `Table.TableComponent.AfterViewInit` | src/app/shared/component/table/table/table.component.ts:104-128 | The working list becomes the names, duplicates included, and the subscription becomes live whatever the check finds. The displayed list is the names, narrowed by the notification delivered at subscription if it matches a tier. The error is reported exactly when the names with duplicates removed are shorter than that displayed list. |
| `Table.TableComponent.OnBreakpoint` | src/app/shared/component/table/table/table.component.ts:136-188 | With a live subscription and a matched tier, the display becomes the working list filtered for the narrowest matched tier. Otherwise the display is unchanged. The working list never changes. |
| `Table.TableComponent.Destroy` | src/app/shared/component/table/table/table.component.ts:191-194 | Teardown ends the subscription and leaves both lists unchanged. Later notifications then change nothing until a new subscription is made. |
| `Table.ShownColumns` | src/app/shared/component/table/table/table.component.ts:146-188 | In every valid state, the displayed columns are a subsequence of the working list. When that list is non-empty, they begin with its first column and end with its last. |

## Findings

| source | as written | input that shows it | evidently intended | confidence | as-written member | corrected member |
|---|---|---|---|---|---|---|
| src/app/shared/component/table/table/table.component.ts:118-119 | The duplicate check compares the first-occurrence filter with `columnsToDispaly`. The subscription made just before may already have narrowed that list. | Names `[A, B, A]` with XSmall matched at subscription: the filter gives `[A, B]` and the display `[A, A]`, both of length 2, so nothing is logged. | Compare with the full list of names, so the error is logged exactly when a name repeats. | not executed | `Table.MissedDuplicate` | `Duplicates.DuplicateErrorIff` |

The component model keeps the check as written (`AfterViewInit`, `ReportsAsWritten`).
`MissedDuplicate` shows it can miss a duplicate; `ReportsAsWrittenSound` shows it never reports one wrongly.

## Left out

- Angular decorators, inputs and outputs, the `detailExpand` animation, `ChangeDetectorRef.detectChanges` and `MatTable.addColumnDef`: framework calls with no behaviour visible in this component.
- `addNewEntry` (empty) and `changePage` (re-emits a pagination event): thin event wrappers with no state of their own.
- Media-query matching inside `BreakpointObserver`: the model takes the matched tiers of each notification as an input.
- Whether the observer actually delivers a notification during subscription is framework behaviour. The model takes it as the `first` argument of `AfterViewInit`, where the empty set means none.
- rxjs `Subject`/`takeUntil` internals: the subscription is a flag that `Destroy` clears. A re-initialisation after teardown would subscribe again, because a completed subject never fires `takeUntil`. Angular never calls the hooks in that order.
- `console.error` output: modelled as the boolean `reported`, not as I/O.
- The column definitions (`BaseColumn`, `MatColumnDef`): only their names enter the model, as `seq<string>`.
- src/app/module/transport/pickup-collection/pickup-collection.module.ts and src/stories/Header.stories.ts: module wiring and story metadata with no behaviour.

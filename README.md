# Table page selection bookkeeping

This project models the selection bookkeeping of the `TablePage` component
of a paginated artwork-catalog viewer. The component shows one page of 12
rows at a time. It keeps a map from row id to row for the rows selected on
any page. It can also "auto-select the next N rows": a pending counter is
consumed as later pages arrive.

Each event handler of the component is a method of the class
`TablePageComponent.TablePage`, and the methods run one after another:

- `FetchSucceeded` is the success branch of `fetchData`. The fetched page
  becomes the displayed page. While the counter is positive, the first
  `min(counter, page length)` rows are merged into the selection. Ids that
  are already selected are skipped. The counter is then reduced by the
  length of that slice, and never below zero.
- `SelectionChanged` is `handleSelectionChange`. Each row of the displayed
  page is put into the selection when the table reports it checked, and
  removed otherwise. Selections made on other pages are kept.
- `SelectedRowsForCurrentPage` is the derived list of rows shown as checked.
- `AutoSelectCountChanged`, `PopupToggled` and `AutoSelectSubmitted` are
  the popup's input, its toggle button and `handleAutoSelect`.
- `PageChanged` is `handlePageChange`, and `First` is the paginator offset.

`FetchSucceeded`, `SelectionChanged` and `PageChanged` tie the new state
to the functions `Bookkeeping.FetchMerge`, `Bookkeeping.Reconcile` and
`Paging.PageFromPaginator`. `SelectedRowsForCurrentPage` states its result
outright, as the order-preserving filter of the page by selected id. The
popup handlers `AutoSelectCountChanged`, `PopupToggled` and
`AutoSelectSubmitted` state their new fields outright. The lemmas about
those functions state what the component promises:

- an auto-select never removes or replaces an entry;
- it adds only ids from the slice;
- the counter never increases and never goes negative once positive;
- over any run of fetches, the rows added never exceed the count requested;
- reconciling touches only the ids of the displayed page;
- the checked rows are an order-preserving filter of the page;
- the page-number conversions round-trip.

The class invariant `Valid` states that every selected row was fetched in
this session or restored from storage. It also states that every entry the
component stored is stored under its own row's id. Only a key of the
selection restored from storage may be bound to a row with another id.

The counter is charged for the whole slice, including rows that were
already selected, not only for the rows actually added
(`src/components/TablePage.tsx:53-63`):

- `Bookkeeping.AutoSelectChargeCovers` proves that the charge is never less
  than the number of rows added.
- `Bookkeeping.AutoSelectChargeExact` proves that the two are equal when
  the slice is all new.
- `Bookkeeping.AutoSelectChargeOverlap` proves that the charge is strictly
  more as soon as one slice row was already selected.

## Model

| member | source | states |
|---|---|---|
| `Bookkeeping.Min` | src/components/TablePage.tsx:53 | `Math.min`: the result is at most both arguments and is one of them |
| `Bookkeeping.Max` | src/components/TablePage.tsx:62 | `Math.max`: the result is at least both arguments and is one of them |
| `Bookkeeping.SelectCount` | src/components/TablePage.tsx:53 | with a positive counter, the number of rows offered to auto-select is at most the page length and at most the counter, and equals one of them |
| `Bookkeeping.AddIfAbsent` | src/components/TablePage.tsx:56-58 | one step of the merge loop: every old entry is kept, the row's id is a key afterwards bound to the old row if it was present and to this row otherwise, and no other key appears |
| `Bookkeeping.AddMissing` | src/components/TablePage.tsx:55-59 | the merge loop over the slice: the id of every slice row is a key afterwards (the lemmas below characterise it completely) |
| `Bookkeeping.AddMissingKeys` | src/components/TablePage.tsx:55-59 | after the merge loop the keys are exactly the old keys plus the ids of the slice rows |
| `Bookkeeping.AddMissingExtends` | src/components/TablePage.tsx:55-59 | the merge loop keeps every previous key with its previous row (an id already present is skipped) |
| `Bookkeeping.AddMissingFirst` | src/components/TablePage.tsx:55-59 | an id not selected before is bound to the first slice row that carries it |
| `Bookkeeping.AddMissingKeyed` | src/components/TablePage.tsx:56-57 | every row the merge adds is stored under its own id: if every entry outside a set of exempt keys is stored under its own row's id before the merge, that still holds afterwards |
| `Bookkeeping.AddMissingValues` | src/components/TablePage.tsx:55-59 | every row selected after the merge was selected before or is a row of the slice |
| `Bookkeeping.AddMissingSize` | src/components/TablePage.tsx:55-59 | the merge adds one entry for each slice id that was not yet a key |
| `Bookkeeping.FetchMerge` | src/components/TablePage.tsx:50-65 | a fetch keeps every entry. With a counter of zero or less, selection and counter are unchanged. Otherwise the keys become the old keys plus the ids of the first `min(counter, length)` rows, and the counter becomes `counter - length` if that is positive, else 0 |
| `Bookkeeping.FetchMergeValues` | src/components/TablePage.tsx:50-65 | every row selected after a fetch was selected before or is a fetched row |
| `Bookkeeping.FetchMergeKeyed` | src/components/TablePage.tsx:50-65 | a fetch stores each row it adds under its own id: if every entry outside a set of exempt keys is stored under its own row's id before, that still holds afterwards |
| `Bookkeeping.AutoSelectChargeCovers` | src/components/TablePage.tsx:53-63 | with a positive counter, the new counter lies between 0 and the old one, and the number of entries added is at most the drop of the counter |
| `Bookkeeping.AutoSelectChargeExact` | src/components/TablePage.tsx:53-63 | when the slice's ids are distinct and none was selected, the counter drops by exactly the number of entries added |
| `Bookkeeping.AutoSelectChargeOverlap` | src/components/TablePage.tsx:53-63 | when some slice row was already selected, the counter drops by strictly more than the number of entries added |
| `Bookkeeping.FetchSeries` | src/components/TablePage.tsx:50-65 | a run of fetches with the counter carried from one to the next; with a counter of zero or less the run leaves selection and counter unchanged |
| `Bookkeeping.FetchSeriesExtends` | src/components/TablePage.tsx:50-65 | over any run of fetches with the counter carried from one fetch to the next, no entry is removed or replaced |
| `Bookkeeping.FetchSeriesCounter` | src/components/TablePage.tsx:52-63 | over any run of fetches the counter never increases. Once positive it never goes negative, and the entries added never exceed the counter's total drop, hence never the count requested. With a counter of zero or less nothing changes |
| `Bookkeeping.ReconcileRow` | src/components/TablePage.tsx:94-98 | one step of the reconcile loop: the row's id becomes a key when checked and stops being one otherwise, a checked row is stored under its id, and every other entry is unchanged |
| `Bookkeeping.Reconcile` | src/components/TablePage.tsx:93-99 | the reconcile loop over the page: if every entry is stored under its own row's id before, that still holds afterwards (the lemmas below characterise it completely) |
| `Bookkeeping.ReconcileKeys` | src/components/TablePage.tsx:89-99 | afterwards a page id is a key exactly when it is checked, and the keys that are not page ids are the old ones |
| `Bookkeeping.ReconcileFrame` | src/components/TablePage.tsx:89-99 | an entry whose key is not the id of a displayed row keeps its row |
| `Bookkeeping.ReconcileLast` | src/components/TablePage.tsx:93-96 | a checked id is bound to the last displayed row carrying it |
| `Bookkeeping.ReconcileValues` | src/components/TablePage.tsx:93-98 | every row selected after the reconcile loop was selected before or is a displayed row |
| `Bookkeeping.ReconcileKeyedExcept` | src/components/TablePage.tsx:93-98 | a checked row is stored under its own id: if every entry outside a set of exempt keys is stored under its own row's id before the reconcile loop, that still holds afterwards |
| `Bookkeeping.ReconcileOnPage` | src/components/TablePage.tsx:91-99 | for every displayed row, its id is selected afterwards exactly when the table reports it checked |
| `Bookkeeping.SelectedOnPage` | src/components/TablePage.tsx:106-107 | a row is shown as checked exactly when it is on the page and its id is selected; no more rows than the page |
| `Bookkeeping.SelectedOnPageInOrder` | src/components/TablePage.tsx:106-107 | the checked rows are a subsequence of the page, and each row occurs as often as on the page when its id is selected, and not at all otherwise |
| `Paging.PageFromPaginator` | src/components/TablePage.tsx:77-79 | the 0-based paginator index becomes a 1-based page number, at least 1 |
| `Paging.PaginatorFirst` | src/components/TablePage.tsx:184-186 | the paginator offset is a whole number of 12-row pages, is `page - 1` pages, and is non-negative exactly when the page number is at least 1 |
| `Paging.PaginatorRoundTrip` | src/components/TablePage.tsx:77-80 | after the paginator reports index `e`, the paginator offset is `e * 12` |
| `Paging.PageRoundTrip` | src/components/TablePage.tsx:184-186 | for a page number of at least 1, reading the page index back from the offset and converting it returns the same page number |
| `TablePageComponent.TablePage.Valid` | src/components/TablePage.tsx:55-57 | the object invariant: every selected row and every displayed row is a row fetched in this session or restored from storage, and every entry not restored from storage is stored under its own row's id (rows enter the selection only at lines 57 and 95, from fetched data, under their own ids) |
| `TablePageComponent.TablePage.constructor` | src/components/TablePage.tsx:19-33 | initial state: the restored selection and page, no rows, total 0, input 0, counter 0, popup closed; the rows seen so far are the restored ones, the restored keys are those of the restored selection, and the invariant holds for any restored selection |
| `TablePageComponent.MergeAutoSelected` | src/components/TablePage.tsx:50-59 | the loop over the slice, run on a copy of the selection, yields `AddMissing` of the selection and the slice |
| `TablePageComponent.TablePage.FetchSucceeded` | src/components/TablePage.tsx:45-68 | the fetched rows and total are displayed. The selection and counter become `FetchMerge` of the old ones, the loop proved against it. The fetched rows join the rows seen, and page, input, popup and the restored keys are unchanged |
| `TablePageComponent.TablePage.SelectionChanged` | src/components/TablePage.tsx:88-104 | the selection becomes `Reconcile` of the old one over the displayed rows with the checked ids, the loop proved against it. Nothing else changes, the rows seen and the restored keys included, and the invariant holds |
| `TablePageComponent.TablePage.SelectedRowsForCurrentPage` | src/components/TablePage.tsx:106-107 | the rows shown as checked are exactly the displayed rows whose id is selected, in page order, each as often as on the page |
| `TablePageComponent.TablePage.AutoSelectCountChanged` | src/components/TablePage.tsx:156 | the popup input holds the typed number |
| `TablePageComponent.TablePage.PopupToggled` | src/components/TablePage.tsx:145 | the popup's visibility flips |
| `TablePageComponent.TablePage.AutoSelectSubmitted` | src/components/TablePage.tsx:109-115 | the counter takes the typed number, the input is reset to 0 and the popup closes; rows, selection, page, the rows seen and the restored keys are unchanged |
| `TablePageComponent.TablePage.PageChanged` | src/components/TablePage.tsx:77-81 | the page number becomes the reported index plus one, and the paginator offset then equals the index times 12 |
| `TablePageComponent.TablePage.First` | src/components/TablePage.tsx:185 | the paginator offset for the displayed page is a whole number of pages and is non-negative exactly when the page number is at least 1 |
| `Scenarios.AutoSelectFirstPage` | src/components/TablePage.tsx:52-63 | auto-selecting 15 rows from an empty selection over a full page of distinct ids selects its 12 rows and leaves 3 pending |
| `Scenarios.AutoSelectFifteenOverTwoPages` | src/components/TablePage.tsx:52-63 | a next page of 12 rows with new ids then selects its first 3, giving 15 rows in all and a counter of 0 |
| `Scenarios.TickedOnTwoPagesKeys` | src/components/TablePage.tsx:88-104 | ticking two rows on one page and one row on another page with different ids selects exactly those three ids |
| `Scenarios.AutoSelectLastThree` | src/components/TablePage.tsx:52-63 | with 3 pending over 12 selected rows, a 12-row page of new ids selects its first 3, giving 15 rows and a counter of 0 |
| `Scenarios.AutoSelectNextPage` | src/components/TablePage.tsx:52-63 | after a first page of 12 rows has been auto-selected with 3 pending, a next page of 12 rows with other ids brings the selection to 15 rows and the counter to 0 |
| `Scenarios.StartAutoSelect` | src/components/TablePage.tsx:38-115 | on a fresh component: typing 15, submitting and a first page of 12 rows with distinct ids select exactly the page's ids with 3 pending, and the invariant holds |
| `Scenarios.AutoSelectSession` | src/components/TablePage.tsx:38-115 | on the component itself: typing 15, submitting, a first page of 12 rows, a page change and a second page of 12 new rows give 12 selected with 3 pending, then 15 selected with 0 pending |
| `Scenarios.TickTwo` | src/components/TablePage.tsx:88-104 | ticking two rows of a page with nothing selected selects exactly their ids |
| `Scenarios.TickOneMore` | src/components/TablePage.tsx:88-104 | ticking one row of a page with no selected ids adds exactly its id |
| `Scenarios.ShownOnFirstPage` | src/components/TablePage.tsx:106-107 | of the first page's rows, exactly the two ticked there carry one of the three ticked ids |
| `Scenarios.ManualSelectionAcrossPages` | src/components/TablePage.tsx:88-107 | back on the first page, exactly the two rows ticked there are shown as checked |

## Left out

- The HTTP request to the catalog and the unwrapping of its response
  (`src/components/TablePage.tsx:41-48`) are not modelled. The fetched rows
  and the total count are parameters of `FetchSucceeded`, and the
  `|| 0` default for a missing total is not modelled.
- The failure path of a fetch is not modelled, because it only logs.
- The `isLoading` flag is not modelled.
- Browser storage is not modelled: the reads and writes of `localStorage`,
  `JSON.parse`/`JSON.stringify` and `parseInt`. The constructor takes the
  restored selection and page number as parameters. So the model states
  nothing about saving and then restoring the selection and page. The
  effect that saves the page number and fetches whenever it changes is not
  modelled.
- A page change fetches the new page twice: once from `handlePageChange`
  (line 80) and once from the `currentPage` effect (lines 83-86). Both
  fetches run with the same captured counter and selection, so together
  they act as one merge. The model counts the page change as one
  `FetchSucceeded` event. Two `FetchSucceeded` events in a row would
  charge the counter twice; with 15 requested and a 12-row page, the
  component keeps 3 pending where two events would leave 0.
- React's state semantics are not modelled: batched and asynchronous
  setters and stale closures. The model applies each handler's updates
  before the next event. In the component, the refetch started by
  `handleAutoSelect` still sees the old counter, so the new counter first
  takes effect on a later fetch. Likewise, a fetch merges into the
  selection captured when its closure was created.
- Overlapping fetches after quick page changes are not modelled. This is
  concurrency: a late response overwrites the state.
- The rendering, the PrimeReact table, paginator and button components,
  the spinner and the popup markup are not modelled. Only the state they
  read or set is.
- `src/App.tsx` is not part of this model. It only wraps the component in
  a provider and imports styles.
- Row ids are one key type, a string. The source's `string | number` ids
  become string keys of the selection object, but the checked-id `Set` at
  line 91 keeps numbers and strings apart. The model does not distinguish
  them.
- The popup input and the counter are exact integers. A fractional or
  non-numeric input is not modelled. In the source, `Number(...)` can
  produce such a value, and `|| 0` then turns `NaN` into 0. The source's
  counter is a double-precision number, so integers above 2^53 are not
  exact there. For a typed count of `100000000000000000000`, line 62
  computes `1e20 - 12` as `1e20`, so the counter does not drop while 12
  rows are added. The model's counter drops by 12. So `FetchMerge`,
  `AutoSelectChargeCovers` and `FetchSeriesCounter` do not hold of the
  source for counters above 2^53.
- `!newSelections[row.id]` at line 56 is modelled as "the id is not a key".
  Stored values are always row objects, so they are truthy. This holds only
  for ids that are not names inherited from `Object.prototype`. For an id
  such as `"constructor"` or `"toString"`, line 56 finds the inherited
  member, so that row is never auto-selected, and line 107 always shows it
  as checked. Assigning the id `"__proto__"` at lines 57 and 95 sets the
  object's prototype and stores no key. The model's ids are plain keys, so
  it does not capture these cases. The catalog's ids are numbers, so they
  do not arise with its data.

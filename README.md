# Cross-page artwork selection, modelled in Dafny

This project models the selection hook of a paginated artwork catalog table
(`src/hooks/useArtworkSelection.ts`). The hook keeps two pieces of state:

- `selectedArtworks`, the ordered list of selected records;
- `selectionConfig`, either absent or a bulk-selection intent
  `{totalToSelect, startPage}`, meaning "select the first `totalToSelect`
  rows, counting from page `startPage`".

A bulk request selects a prefix of the page on screen and records the intent.
Applying the intent to a later page recomputes that page's share of the
selection, `(pageNumber - startPage) * rowsPerPage` rows having been accounted
for by the pages before it, and leaves every other page's records alone.
Toggling one row, editing the table's checkboxes and clearing change the
selection directly. Toggling a selected row off, or a table edit that shrinks
the selection, abandons the intent.

Layout:

- `selection.dfy`, module `SelectionState`: the values the hook hands to its
  setters, as functions over a selection of record ids, with the lemmas that
  state what they promise.
- `hook.dfy`, module `ArtworkSelectionHook`: class `ArtworkSelection`, whose
  fields are the hook's two state variables. Each operation that calls the
  setters is a method whose `ensures` gives the new state through those
  functions.

Modelling decisions:

- A record is reduced to its `id`. Every comparison the hook makes between
  records compares ids (`some`/`filter` on `.id`).
- The hook's parameters `artworks`, `currentPage` and `rowsPerPage` are the
  page it is rendered with. They become parameters of the methods that read
  them.
- React's state setters become ordinary assignments, done in the order the
  code calls them.
- The code at this revision keeps no set of manually edited pages. A table
  edit that shrinks the selection drops the whole intent, not the intent for
  one page. Toggling a row drops the intent only when it deselects.
- `handlePageSelection` tests the quota (`itemsProcessedBefore >=
  totalToSelect`) before it tests `pageNumber < startPage`, and skips the
  update when it would select zero rows. `ItemsToSelectOnPage` and
  `SpillOnto` keep that order.
- Applying the intent twice to the same page gives the same selection
  whether or not the page's ids are distinct, so `SpillIdempotent` has no
  precondition.

## Model

| member | source | states |
|---|---|---|
| `SelectionState.AnyHasId` | src/hooks/useArtworkSelection.ts:78 | `some(x => x.id === id)` holds exactly when the id is in the list |
| `SelectionState.RemoveIds` | src/hooks/useArtworkSelection.ts:62-65 | filtering a page out keeps exactly the records not on that page and is no longer than the input |
| `SelectionState.RemoveIdsPreservesNoDuplicates` | src/hooks/useArtworkSelection.ts:62-65 | filtering a duplicate-free selection leaves it duplicate-free |
| `SelectionState.BulkPrefix` | src/hooks/useArtworkSelection.ts:30-31 | a bulk request's selection is a prefix of the page, of length `numRows` unless the page is shorter, in which case it is the whole page |
| `SelectionState.ItemsToSelectOnPage` | src/hooks/useArtworkSelection.ts:39-56 | the page handler returns early iff there is no intent, the quota is met by earlier pages, or the page precedes the start page; otherwise it selects `min(remaining quota, page length)` rows, which is zero only for an empty page |
| `SelectionState.SpillOnto` | src/hooks/useArtworkSelection.ts:38-69 | the selection is unchanged when the handler returns early or the page is empty |
| `SelectionState.SpillEffect` | src/hooks/useArtworkSelection.ts:53-67 | once past the guards, the page's first k rows end the new selection, no record of the page comes before them, and the records before them, filtered of the page, are the old selection's in the old order |
| `SelectionState.SpillKeepsOtherPages` | src/hooks/useArtworkSelection.ts:61-66 | records of other pages are kept, in order, and no record of another page appears or disappears |
| `SelectionState.SpillPageContribution` | src/hooks/useArtworkSelection.ts:53-66 | the page's part of the new selection is exactly its first k rows, with 0 < k, k at most the page length and at most the remaining quota |
| `SelectionState.SpillOntoStartPage` | src/hooks/useArtworkSelection.ts:23-31 | on the page an intent for at least one row started on, the page's part of the selection becomes exactly the bulk request's prefix `min(totalToSelect, page length)` of that page |
| `SelectionState.ReapplyAtStartPage` | src/hooks/useArtworkSelection.ts:23-67 | re-applying a fresh intent to the page it was issued on leaves the bulk request's selection as it is |
| `SelectionState.SpillIdempotent` | src/hooks/useArtworkSelection.ts:58-67 | applying the intent to the same page twice in a row yields the selection of applying it once |
| `SelectionState.SpillPreservesNoDuplicates` | src/hooks/useArtworkSelection.ts:59-66 | a page with distinct ids keeps a duplicate-free selection duplicate-free |
| `SelectionState.SpillExampleFirstPage` | src/hooks/useArtworkSelection.ts:30-31 | 15 rows requested on page 1 of 12-row pages: the bulk request, and the intent re-applied to page 1, select all 12 rows of page 1 |
| `SelectionState.SpillExampleSecondPage` | src/hooks/useArtworkSelection.ts:43-66 | with that intent, page 2 adds its first 3 rows after page 1's 12 |
| `SelectionState.SpillExampleThirdPage` | src/hooks/useArtworkSelection.ts:43-47 | with that intent, page 3 changes nothing, as 24 rows are already accounted for |
| `SelectionState.Toggled` | src/hooks/useArtworkSelection.ts:77-88 | toggling flips membership of that id and of no other; the records with other ids are the same sequence before and after; an unselected id is appended; a selected one is removed everywhere and the list shrinks |
| `SelectionState.ToggledPreservesNoDuplicates` | src/hooks/useArtworkSelection.ts:77-88 | toggling cannot bring a duplicate into a duplicate-free selection |
| `ArtworkSelectionHook.ArtworkSelection.constructor` | src/hooks/useArtworkSelection.ts:11-15 | the selection starts empty and the intent absent |
| `ArtworkSelectionHook.ArtworkSelection.SelectMultipleRows` | src/hooks/useArtworkSelection.ts:18-35 | `numRows <= 0` changes nothing; otherwise the intent becomes `{numRows, currentPage}` and the selection exactly the page's first `min(numRows, page length)` rows, discarding other pages |
| `ArtworkSelectionHook.ArtworkSelection.HandlePageSelection` | src/hooks/useArtworkSelection.ts:38-69 | the intent is unchanged, the selection becomes the spill of the old one onto the page, records of other pages are kept in order, and on the intent's start page the page's part is the bulk request's prefix |
| `ArtworkSelectionHook.ArtworkSelection.ClearSelection` | src/hooks/useArtworkSelection.ts:71-74 | empty selection and no intent |
| `ArtworkSelectionHook.ArtworkSelection.ToggleArtworkSelection` | src/hooks/useArtworkSelection.ts:76-89 | `IsArtworkSelected` flips for that id and for no other, the records with other ids keep their order; the intent is dropped only when the id was selected |
| `ArtworkSelectionHook.ArtworkSelection.IsArtworkSelected` | src/hooks/useArtworkSelection.ts:91-93 | true exactly when a record with that id is selected |
| `ArtworkSelectionHook.ArtworkSelection.HandleDataTableSelectionChange` | src/hooks/useArtworkSelection.ts:95-102 | the selection becomes exactly the new one; the intent is dropped iff one was active and the new selection is shorter |

Every state-changing method also ensures that `Valid()` is preserved when the
input lists have distinct ids. `Valid()` says there are no duplicate ids in
the selection and an active intent asks for at least one row; the second
part is what makes the start page always receive its share of the intent.

## Left out

- Record fields other than `id`: the hook never reads them.
- `setLoading(true)` / `setLoading(false)` around the bulk request (src/hooks/useArtworkSelection.ts:21, 34): a loading indicator, not selection state. The `async` on `selectMultipleRows` awaits nothing.
- The unused `_totalRecords` parameter (src/hooks/useArtworkSelection.ts:8).
- React's render cycle: batching of setter calls, handlers that read state values from an earlier render, and the `setSelectionConfig` call made inside the functional update of `toggleArtworkSelection`. Each operation is modelled as running to completion on the latest state.
- JavaScript numbers: counts and page numbers are unbounded integers. Fractional, `NaN` or infinite values of `numRows`, `pageNumber` or `rowsPerPage` are not modelled.
- The table component (src/components/Table.tsx) destructures `setSelectedArtworks`, which the hook does not return, and never calls `handlePageSelection`. The model covers the hook's own interface, not that wiring.
- Page fetching (src/hooks/useArtworkData.ts, src/services/artworkService.ts), the bulk-count overlay (src/components/SelectionHeader.tsx) and the table constants (src/constants/table.ts): network I/O and presentation, outside the selection logic.

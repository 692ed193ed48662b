# File-storage web client: gallery, lightbox and file table state

A Dafny model of the state logic of a React client for a file-storage
service. Every data operation of that client goes through a generated REST
client; what is modelled here is the state around those calls:

- **Gallery page** (`src/pages/Images/page.tsx`, module `ImagesPage`): the
  page cursor advanced by infinite scroll, the cache of resolved files
  (`fetchedFiles`, written insert-if-absent), the file being previewed, and the
  overlay slot the page fills with a previewer. The class `Gallery` has these
  as fields and one method per event: a thumbnail's fetch returns a file or
  nothing (`FetchReturned`, `AddFetchedFile`), the preview is closed (`Close`),
  the sentinel intersects (`SentinelIntersects`, effective only while the
  observer is attached, i.e. `hasMore && !isLoading`), and the overlay effect
  recomputes the slot (`RecomputeOverlay`). The page listing and its loading
  flag are inputs to these methods. The selection follows JavaScript
  truthiness: `null` and `""` both count as "nothing selected".
- **Lightbox previewer** (`src/pages/Images/components/ImagePreviewer.tsx`,
  module `ImagePreviewer`): a pure function from (files, cache, selected id)
  to the image shown, the thumbnail strip with its highlight, and the value
  written to the body's overflow style; plus what a click does (close the
  preview or fetch a strip file). The strip covers the files of the current
  page only, as the code passes them, not every page loaded so far.
- **File table** (`src/pages/Home.tsx`, module `Home`): the class `HomePage`
  holds the page cursor (previous/next bounded by `totalPages`, and the page
  links); the class `FilesTable` holds the row selection, the file pending
  deletion and the dialog flag. `totalPages` is modelled as an exact rational
  (`real`), and lemmas tie it to integer arithmetic: Next moves exactly when
  `page * 20 < total`, and the number of links is `max(total div 20, 1)`.
  `selectedFiles` lists the ids of the selected rows in ascending row order
  (the order `Object.keys` gives integer keys); when a selected index has no
  row on the current page, `files[Number(key)].id` throws, and
  `SelectedFiles` returns `None`. Row selection is not cleared when the page
  changes, and while the next page loads the row list is empty, so any
  selection at that moment reaches this error path (third row of
  "Findings").

The three `...Scenario` methods are clients of the contracts: the click,
preview and close round trip with the scroll trigger; paging over 45 files
with a selection across a page change;
a bulk delete and a single-row delete.

## Model

| member | source | states |
|---|---|---|
| `ImagePreviewer.OverflowFor` | src/pages/Images/components/ImagePreviewer.tsx:25-27 | the effect writes `hidden` exactly when the selected id is non-empty, `auto` otherwise |
| `ImagePreviewer.Strip` | src/pages/Images/components/ImagePreviewer.tsx:66-75 | one strip thumbnail per listed file, in order, each highlighted iff its id equals the selection |
| `ImagePreviewer.StripHighlightsOnce` | src/pages/Images/components/ImagePreviewer.tsx:73 | with unique ids exactly one thumbnail is highlighted when the selection is listed, none otherwise |
| `ImagePreviewer.Render` | src/pages/Images/components/ImagePreviewer.tsx:25-50 | nothing is shown iff the selection is not a cache key; otherwise the cached URL with the file name as alt, over the strip; the overflow write happens in both cases |
| `ImagePreviewer.RenderStableUnderGrowth` | src/pages/Images/components/ImagePreviewer.tsx:28-29 | once the selection is cached, growing the cache does not change what is rendered |
| `ImagePreviewer.CloseCalls` | src/pages/Images/components/ImagePreviewer.tsx:31-38 | a click calls handleClose at most once; once exactly for the backdrop and the strip container, never for the image or a strip thumbnail, never when nothing is shown |
| `ImagePreviewer.FetchRequested` | src/pages/Images/components/ImagePreviewer.tsx:66-75 | only a click on a strip thumbnail requests a fetch, and it requests that thumbnail's file |
| `ImagePreviewer.StripClickFetchesListedFile` | src/pages/Images/components/ImageThumbnail.tsx:42-46 | clicking the i-th strip thumbnail fetches the i-th listed file and does not close the preview |
| `ImagesPage.Files` | src/pages/Images/page.tsx:35 | `files` is the listing's data, and `[]` while no listing has arrived |
| `ImagesPage.HasMore` | src/pages/Images/page.tsx:36 | `hasMore` is false while no listing has arrived, else the listing's flag |
| `ImagesPage.ObserverAttached` | src/pages/Images/page.tsx:52-53 | the observer is attached iff a listing has arrived with more pages and no load is in flight |
| `ImagesPage.GridView` | src/pages/Images/page.tsx:87-103 | the grid shows the current page's files in order, 10 skeletons while loading, and the sentinel iff `hasMore` |
| `ImagesPage.ObserverNeedsSentinel` | src/pages/Images/page.tsx:33-36 | an attached observer implies a rendered sentinel and no load in flight; with no data nothing is listed and the cursor cannot advance |
| `ImagesPage.InsertIfAbsent` | src/pages/Images/page.tsx:43-46 | the update keeps every existing entry, adds the file's id as a key, and the stored value is the old one if present, else the file |
| `ImagesPage.InsertKeepsKeysMatching` | src/pages/Images/page.tsx:42-45 | every entry stays stored under the id of the file it holds |
| `ImagesPage.InsertFirstWins` | src/pages/Images/page.tsx:44 | a second insert for the same id leaves the cache unchanged |
| `ImagesPage.InsertAllKeepsEarliest` | src/pages/Images/page.tsx:41-48 | after any run of fetch results each id holds its earlier entry, else the first fetched file with that id |
| `ImagesPage.OverlayFor` | src/pages/Images/page.tsx:74-85 | the slot holds a previewer over the current files, cache and selection iff the selection is truthy, else undefined |
| `ImagesPage.SlotView` | src/components/layout/layout.tsx:16 | the layout shows nothing for an empty slot or an uncached selection; otherwise the cached URL and name over the strip of the slot's files |
| `ImagesPage.FetchedFileIsShown` | src/pages/Images/page.tsx:41-48 | after a fetched file is added and the overlay recomputed, the slot shows that id's cached entry (the new file if it was absent) over the strip |
| `ImagesPage.NextOverflow` | src/pages/Images/components/ImagePreviewer.tsx:25-27 | a mounting previewer writes its overflow value; emptying the slot leaves the previous value, as there is no cleanup |
| `ImagesPage.ScrollStaysLockedAfterClose` | src/pages/Images/page.tsx:75 | opening a preview and then closing it leaves the body overflow `hidden` |
| `ImagesPage.NextOverflowWithCleanup` | src/pages/Images/components/ImagePreviewer.tsx:25-27 | with a restoring cleanup, overflow is `hidden` exactly while a previewer with a non-empty id is in the slot |
| `ImagesPage.CleanupTracksOverlay` | src/pages/Images/page.tsx:74-85 | with the cleanup, scrolling is locked iff the selection is truthy, whatever the previous value |
| `ImagesPage.Gallery.constructor` | src/pages/Images/page.tsx:23-39 | a mounted page starts on page 1 with an empty cache, no selection and an empty slot |
| `ImagesPage.Gallery.AddFetchedFile` | src/pages/Images/page.tsx:41-48 | the cache becomes the insert-if-absent update, the selection becomes the file's id, the cursor is untouched, page ≥ 1, key/id agreement and "the selection is a cached id" are kept |
| `ImagesPage.Gallery.FetchReturned` | src/pages/Images/components/ImageThumbnail.tsx:42-46 | an empty fetch result changes nothing; a returned file is added and selected |
| `ImagesPage.Gallery.Close` | src/pages/Images/page.tsx:81 | the selection becomes null; cache and cursor are unchanged |
| `ImagesPage.Gallery.SentinelIntersects` | src/pages/Images/page.tsx:52-70 | the cursor advances by exactly 1 when `hasMore && !isLoading`, else stays; the cache and the selection are unchanged |
| `ImagesPage.Gallery.RecomputeOverlay` | src/pages/Images/page.tsx:74-85 | the slot is recomputed from the selection, current files and cache; the body overflow follows a mounted previewer; a filled slot always shows a lightbox, so the previewer's `if (!file) return null` guard (ImagePreviewer.tsx:29) is never taken from the gallery's own events |
| `Home.TotalPages` | src/pages/Home.tsx:190 | totalPages is at least 1, exactly 1 with no data, and `totalPages * 20` covers every file |
| `Home.Rows` | src/pages/Home.tsx:147-149 | `files` is the listing's data, and `[]` before the first response and while a new page loads |
| `Home.CanGoPrevious` | src/pages/Home.tsx:185 | Previous moves only to a page ≥ 1; from page ≥ 1 it is blocked on page 1 alone |
| `Home.CanGoNext` | src/pages/Home.tsx:193 | Next moves from every page below the integer part of totalPages, and from the integer part itself iff totalPages has a fractional part |
| `Home.NextIffMoreRows` | src/pages/Home.tsx:190-196 | from page ≥ 1, Next moves exactly when `page * 20 < total` |
| `Home.NoDataSinglePage` | src/pages/Home.tsx:190 | with no data totalPages is 1 and Next never moves |
| `Home.LinkCountIsQuotient` | src/pages/Home.tsx:529-531 | the number of page links is `max(total div 20, 1)` |
| `Home.LinkCount` | src/pages/Home.tsx:529-531 | `Array.from`'s length: the integer part of totalPages, at least 1 |
| `Home.LinksUpTo` | src/pages/Home.tsx:529-546 | links are numbered 1..n in order, link i active iff the page is i |
| `Home.PageLinks` | src/pages/Home.tsx:529-546 | one link per whole page of totalPages, numbered 1.. in order, link i active iff the page is i |
| `Home.OneActiveLink` | src/pages/Home.tsx:533 | exactly one link is active when the page is among 1..n, none otherwise |
| `Home.PaginationView` | src/pages/Home.tsx:520-558 | the bar is shown iff not loading and the page has rows, with the links above |
| `Home.LastPartialPageHasNoLink` | src/pages/Home.tsx:190-196 | with 45 files Next reaches page 3, but only pages 1 and 2 have links and none is active on page 3 |
| `Home.EveryReachablePageHasLink` | src/pages/Home.tsx:529-531 | with the count rounded up, a page has a link iff it is page 1 or Next can reach it |
| `Home.SelectedIndices` | src/pages/Home.tsx:274 | the selected indices below n, strictly ascending, each selected, none missing |
| `Home.SelectedIndicesCount` | src/pages/Home.tsx:274 | that enumeration has one entry per selected index below n |
| `Home.IdsAt` | src/pages/Home.tsx:275 | the ids of the rows at the given indices, position by position |
| `Home.SelectedFiles` | src/pages/Home.tsx:274-276 | defined iff every selected index names a row; then one id per selected index, in ascending row order |
| `Home.SelectedIdIffSelectedIndex` | src/pages/Home.tsx:274-276 | with unique ids, a row's id is among `selectedFiles` exactly when its index is selected |
| `Home.HeaderCheckbox` | src/pages/Home.tsx:304-308 | checked iff the key count equals the row count (0 = 0 included), indeterminate iff positive and different, unchecked iff 0 with rows present |
| `Home.AllRows` | src/pages/Home.tsx:406-416 | select-all's selection holds exactly the indices below the row count |
| `Home.AllRowsCount` | src/pages/Home.tsx:406-416 | select-all selects exactly as many rows as the page has |
| `Home.SelectAllRows` | src/pages/Home.tsx:408-414 | the reduce's accumulator ends holding exactly every row index |
| `Home.FullSelectionIsAllRows` | src/pages/Home.tsx:306-308 | n selected in-range indices on a page of n rows are all the rows |
| `Home.BulkCheckboxSelection` | src/pages/Home.tsx:431-435 | the next selection holds every row index when the header is indeterminate, and nothing otherwise |
| `Home.BulkCheckboxToggles` | src/pages/Home.tsx:428-436 | while rows are selected, the bulk checkbox turns a partial selection into all rows (header then checked) and clears a full one |
| `Home.DeleteTargets` | src/pages/Home.tsx:418-421 | a delete targets the pending single file's id, else the selected ids |
| `Home.RowIds` | src/pages/Home.tsx:563-567 | the ids of the listed rows, position by position |
| `Home.MatchingIndices` | src/pages/Home.tsx:566 | the indices of the rows the filter's predicate accepts: ascending, each accepted, none missing |
| `Home.FilterByIds` | src/pages/Home.tsx:566 | the rows at the accepted indices, in row order and each once; as a set, exactly the listed rows whose id is among the given ids |
| `Home.DialogFiles` | src/pages/Home.tsx:563-567 | the dialog lists the pending file alone, else the filtered rows (`FilterByIds`): the listed rows whose id is selected, in row order, each once |
| `Home.FilterSelectedPrefix` | src/pages/Home.tsx:566 | when a row's id is among the ids exactly when its index is selected (which unique ids give for `selectedFiles`), filtering keeps exactly the selected rows' ids, in row order |
| `Home.DialogListsDeleteTargets` | src/pages/Home.tsx:560-567 | with unique ids, the dialog lists exactly the files the delete targets, in the same order |
| `Home.SelectionBreaksWhileNextPageLoads` | src/pages/Home.tsx:274-276 | a non-empty selection that renders on a loaded page makes `selectedFiles` throw once the rows are `[]` while the next page loads |
| `Home.EmptySelectionAlwaysRenders` | src/pages/Home.tsx:274-276 | with no selection, `selectedFiles` is `[]` over any rows, a loading page's empty list included |
| `Home.HomePage.constructor` | src/pages/Home.tsx:133 | the table starts on page 1 |
| `Home.HomePage.PreviousPage` | src/pages/Home.tsx:184-188 | moves back one page only from above page 1; page ≥ 1 is kept |
| `Home.HomePage.NextPage` | src/pages/Home.tsx:192-196 | moves forward one page only while the page is below totalPages; page ≥ 1 is kept |
| `Home.HomePage.GoToLink` | src/pages/Home.tsx:541 | clicking a rendered link sets the page to that link's number |
| `Home.FilesTable.constructor` | src/pages/Home.tsx:272-278 | no row selected, no file pending, dialog closed |
| `Home.FilesTable.ToggleRow` | src/pages/Home.tsx:320-324 | a row checkbox adds or removes that row's index and nothing else |
| `Home.FilesTable.SelectAll` | src/pages/Home.tsx:406-416 | the selection becomes every row index of the page |
| `Home.FilesTable.UnselectAll` | src/pages/Home.tsx:402-404 | the selection becomes empty |
| `Home.FilesTable.BulkCheckboxChanged` | src/pages/Home.tsx:428-436 | select all when the header is indeterminate, otherwise unselect all |
| `Home.FilesTable.AskDeleteRow` | src/pages/Home.tsx:368-374 | the row becomes the pending file and the dialog opens |
| `Home.FilesTable.AskDeleteSelected` | src/pages/Home.tsx:441-444 | the dialog opens; selection and pending file unchanged |
| `Home.FilesTable.CloseDialog` | src/pages/Home.tsx:280-282 | closing the dialog clears the pending file and keeps the selection |
| `Home.FilesTable.PageChanged` | src/pages/Home.tsx:274-276 | the corrected page change clears the selection, and the delete request is then defined for any rows |
| `Home.FilesTable.DeleteRequest` | src/pages/Home.tsx:418-421 | the ids sent: none if the table cannot render, the pending file's id, else the selected ids, one per selected row |
| `Home.FilesTable.DeleteSucceeded` | src/pages/Home.tsx:287-294 | the dialog closes and the pending file is cleared; a bulk delete clears the selection; the count reported is 1 or the number of selected rows |

## Left out

- Network calls: `useMyFiles`, `useGetFileById`, the presigned-URL upload, the fetch/blob/anchor download and `useDeleteBulkFilesByIds` are foreign calls; their results enter as method inputs (a listing, a fetch result that is a file or nothing, a successful delete) and the refetch after a delete is not modelled.
- The upload handler's `forEach(async …)` sharing one `isUploading` flag: its behaviour depends on how concurrent callbacks interleave.
- IntersectionObserver mechanics (the 0.1 threshold, attaching and detaching on each dependency change) and React's effect scheduling: one intersection is one event, effective when the observer is attached.
- Rendering detail, styling, toast texts, pluralisation, dialogs' markup, the Lottie animation and the thumbnail's own loaded/skeleton state.
- `ImagesPage.Gallery.RecomputeOverlay`: the slot holds the previewer's props, not a rendered node; what it shows is `ImagesPage.SlotView`.
- `Home.TotalPages`: an exact rational; the rounding of JavaScript's double-precision quotient is not modelled.
- Ids are assumed not to be names of `Object.prototype` members (such as `"constructor"`), which `prev[fileId]` and `fetchedFiles[fileIdToPreview]` would read as present.
- The header checkbox's `table.toggleAllPageRowsSelected` and the row model of the table library: only the row checkbox's add/remove of its index is modelled (`ToggleRow`).
- `handleDownload` and its effect: a network download.
- No cancellation of in-flight fetches on unmount, and the overlay slot is not cleared when the gallery page unmounts.
- The login page, layout, sidebar, header, routing, entry point, API client configuration, the stored-state hook and the user context: thin wrappers over the network, local storage and the router. The overlay context is a single slot, the `overlay` field of `Gallery`. The older `src/pages/Images.tsx` page holds no state logic.

## Findings

| source | as written | input that shows it | evidently intended | confidence | as-written member | corrected member |
|---|---|---|---|---|---|---|
| src/pages/Images/components/ImagePreviewer.tsx:25-27 | the effect sets overflow from the selected id and has no cleanup; the page removes the previewer by emptying the overlay slot (src/pages/Images/page.tsx:75), so the `'auto'` branch never runs | open a preview of id `"abc"`, then click the backdrop: the body overflow stays `hidden` | page scroll restored when the preview closes | not executed; high | `ImagesPage.ScrollStaysLockedAfterClose` | `ImagesPage.CleanupTracksOverlay` |
| src/pages/Home.tsx:190-196 | `Array.from({ length: totalPages })` truncates `total / 20`, while Next moves while `page < total / 20` | 45 files: Next reaches page 3, but the bar links pages 1 and 2 only and none is active on page 3 | one link per page that holds rows, i.e. the count rounded up | not executed; high | `Home.LastPartialPageHasNoLink` | `Home.EveryReachablePageHasLink` |
| src/pages/Home.tsx:274-276 | the row selection lives in FilesTable and is not cleared by `setPage`; `files` is `[]` while the next page loads (src/pages/Home.tsx:149), and `files[Number(key)].id` then reads `.id` of `undefined` | select row 0, click Next: during the load `selectedFiles` throws a TypeError and the table fails to render | the selection cleared when the page changes | not executed; medium | `Home.SelectionBreaksWhileNextPageLoads` | `Home.FilesTable.PageChanged` |

The state machines (`Gallery`, `HomePage`, `FilesTable`) keep the behaviour as written; the corrected definitions are `ImagesPage.NextOverflowWithCleanup`, `Home.PageLinksCeil` and `Home.FilesTable.PageChanged`, each proved with its intended property, and `Home.PagingScenario` runs the corrected page change beside the as-written one.

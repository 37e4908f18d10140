# Photobook view model

This project is a verified Dafny model of the logic inside the
`NeumannPhotobook` React component (`src/App.jsx`), a photo gallery shaped
like a book. The book has a cover that opens and closes. It has chapter
buttons that filter a catalog of photos by category, where the synthetic
chapter `all` means "no filter". The filtered photos are shown four per page,
with previous/next buttons and a "Page x of y" label.

Three modules, one per part of the component:

- `Catalog` (`catalog.dfy`) holds the constant data: the chapter buttons
  (`categories`) and the bundled photo catalog (`photos`). Only the fields the
  logic reads are kept, which are a photo's `id` and `category` and a chapter's
  `id`.
- `Pager` (`pager.dfy`) models the values derived on every render as pure
  functions over any catalog. These are the filter (`filteredPhotos`), the
  ceiling division (`totalPages`), the slice of the current page
  (`currentPhotos`) and the label count `totalPages || 1`. It proves that:
  - filtering is stable, keeps exact multiplicities and distributes over
    concatenation;
  - `totalPages` is the ceiling of `n / 4`;
  - each page has at most four photos, and every page before the last is full;
  - the pages, concatenated in order, rebuild the filtered list.
- `Photobook` (`photobook.dfy`) models the component's `useState` fields as
  the class `NeumannPhotobook`. Its handlers are methods that change those
  fields. Each `setTimeout` callback is a separate completion method
  (`FinishTurn`, `FinishClose`). The callback still waiting to run is held in
  the field `timer`, together with the page index the callback captured.
  - The class invariant `Valid()` says that the current page lies in
    `0 .. max(totalPages - 1, 0)`, that `isFlipping` and `isClosing` match the
    waiting callback, that a callback waits only while the book is open, and
    that a waiting page turn will land on a valid page next to the current one.
  - Each handler may be called only from the view that offers it. The closed
    view (src/App.jsx:81-95) offers only `openBook`. The open view offers
    `closeBook`, the chapter buttons and the page buttons (src/App.jsx:166,
    228, 319, 334). So the cover goes Closed, then Open, then Closing, then
    Closed again, and `Cover()` names these three states.
  - The constructor and every method keep `Valid()`, so it holds in every
    reachable state.

The page size is the constant 4 of src/App.jsx:34. The model fixes it too,
rather than taking it as a parameter.

## Model

| member | source | states |
|---|---|---|
| Catalog.CatalogWellFormed | src/App.jsx:11-28 | The chapter ids are distinct and the first is `all`. The bundled photos are distinct, and each one belongs to a listed chapter other than `all`. |
| Pager.FilterBy | src/App.jsx:32 | The result is no longer than the catalog. A photo is in the result exactly when it is in the catalog and its category equals the chapter. |
| Pager.Filter | src/App.jsx:30-32 | For `all` the filtered list is the catalog itself. For any other chapter, a photo is in it exactly when the catalog holds it with that category. |
| Pager.FilterByIsSubsequence | src/App.jsx:32 | The filtered list is a subsequence of the catalog, so filtering keeps the catalog's order. |
| Pager.FilterByMultiplicity | src/App.jsx:32 | Each photo of the chapter appears in the result as often as in the catalog. Photos of other chapters do not appear. |
| Pager.FilterByAppend | src/App.jsx:32 | Filtering `a + b` gives the filtered `a` followed by the filtered `b`. |
| Pager.FilterByNone | src/App.jsx:32 | A chapter that no photo of the catalog belongs to filters to the empty list. |
| Pager.FilterCharacterized | src/App.jsx:30-32 | For `all` the result is the catalog. For any other chapter it is a subsequence of the catalog that holds each photo of the chapter as often as the catalog does, and no other photo. |
| Pager.SubsequenceMultiset | src/App.jsx:32 | A subsequence holds each photo at most as often as the sequence it was taken from. |
| Pager.FilterByUnique | src/App.jsx:32 | Any subsequence of the catalog with the chapter's exact multiplicities is the filtered list itself. |
| Pager.FilterUnique | src/App.jsx:30-32 | For a chapter other than `all`, the filtered list is the only subsequence of the catalog with the chapter's exact multiplicities. Together with `FilterCharacterized`, this pins the filtered list down completely. |
| Pager.TotalPages | src/App.jsx:34-35 | The result `t` is the ceiling of `n / 4`, because `n <= 4t < n + 4`. It is 0 exactly when `n` is 0. |
| Pager.Page | src/App.jsx:36-39 | A page has at most 4 photos, and its i-th photo is photo `4p + i` of the filtered list. It is non-empty exactly when `p < totalPages`. Every page before the last is full, and the last page ends at the end of the list. |
| Pager.PagesFromIsSuffix | src/App.jsx:36-39 | Pages `p .. totalPages - 1`, concatenated, equal the filtered list from photo `4p` on. |
| Pager.PagesRebuildFiltered | src/App.jsx:34-39 | Pages `0 .. totalPages - 1`, concatenated in order, rebuild the filtered list exactly. |
| Pager.DisplayedPageCount | src/App.jsx:313 | The label count is 1 when `totalPages` is 0 and equals `totalPages` otherwise. So it is at least 1 and at least `totalPages`. |
| Pager.EmptyChapterExactly | src/App.jsx:300 | On a page in range, the visible slice is empty exactly when the filtered list is empty. |
| Pager.BundledCatalogPages | src/App.jsx:19-39 | The eight bundled photos under `all` make two pages, and both pages are full. |
| Pager.TwoPhotoScenario | src/App.jsx:30-39 | In a catalog of one `sleepy` and one `playing` photo, the `sleepy` chapter shows just its photo on a single page. |
| Pager.EmptyChapterScenario | src/App.jsx:30-39 | A chapter with no photos has 0 pages and an empty first page, and its label count is 1. |
| Photobook.NeumannPhotobook.constructor | src/App.jsx:5-9 | The book starts closed, not closing and not flipping, on page 0 of `all`, with no callback waiting. The invariant holds. |
| Photobook.NeumannPhotobook.Filtered | src/App.jsx:30-32 | Under `all` the filtered list is the catalog. Otherwise a photo is in it exactly when the catalog holds it with the selected category. |
| Photobook.NeumannPhotobook.PageCount | src/App.jsx:34-35 | `totalPages` is the ceiling of the filtered count over 4. It is 0 exactly when the filtered list is empty. |
| Photobook.NeumannPhotobook.Valid | src/App.jsx:41-78 | The invariant every handler keeps. The current page is non-negative and at most `max(totalPages - 1, 0)`, so its label number `currentPage + 1` never exceeds the label count. A closing book is open. |
| Photobook.NeumannPhotobook.Cover | src/App.jsx:81-155 | The cover is Closed exactly when `isOpen` is false, which selects the closed view. It is Closing exactly when the open view is fading out, and Open otherwise. |
| Photobook.NeumannPhotobook.PrevDisabled | src/App.jsx:320 | The previous button is disabled exactly when the guard of `prevPage` fails. |
| Photobook.NeumannPhotobook.NextDisabled | src/App.jsx:335 | The next button is disabled exactly when the guard of `nextPage` fails. In a valid state that is exactly the last page of the label. |
| Photobook.NeumannPhotobook.CurrentPhotos | src/App.jsx:36-39 | The visible photos are at most 4 consecutive photos of the filtered list, starting at `4 * currentPage`. Every page before the last holds exactly 4, and the last page ends at the end of the filtered list. They are empty exactly when the chapter is empty. |
| Photobook.NeumannPhotobook.ShowsEmptyChapter | src/App.jsx:300 | In every valid state, the empty-chapter message is shown exactly when the filtered list is empty. |
| Photobook.NeumannPhotobook.PageLabel | src/App.jsx:313 | The label reads "Page x of y", where `x` is `currentPage + 1` and `y` is `totalPages`, or 1 when there are no pages. In every valid state `1 <= x <= y`. |
| Photobook.NeumannPhotobook.NextPage | src/App.jsx:41-49 | Called only in the open view. When `currentPage < totalPages - 1`, it raises `isFlipping` and schedules the turn to `currentPage + 1`. Otherwise, which is exactly when the next button is disabled, nothing changes. The page, chapter and cover flags stay the same, and the invariant is kept. |
| Photobook.NeumannPhotobook.PrevPage | src/App.jsx:51-59 | Called only in the open view. When `currentPage > 0`, it raises `isFlipping` and schedules the turn to `currentPage - 1`. Otherwise, which is exactly when the previous button is disabled, nothing changes. The invariant is kept. |
| Photobook.NeumannPhotobook.FinishTurn | src/App.jsx:44-57 | The page-turn callback sets `currentPage` to the captured target, which is exactly one page away from the current page, and clears `isFlipping`. Nothing else changes, and the new page is valid. |
| Photobook.NeumannPhotobook.HandleCategoryChange | src/App.jsx:61-64 | Called only in the open view. It sets `selectedCategory` to the chosen id and `currentPage` to 0, and leaves `isOpen`, `isClosing` and `isFlipping` unchanged. Page 0 is valid under the new filter, the empty one included. |
| Photobook.NeumannPhotobook.OpenBook | src/App.jsx:66-68 | Called only in the closed view. It sets `isOpen` and changes nothing else, so the cover goes from Closed to Open. |
| Photobook.NeumannPhotobook.CloseBook | src/App.jsx:70-78 | Called only in the open view. It raises `isClosing` and schedules the closing callback, so the cover goes from Open to Closing. Nothing else changes. |
| Photobook.NeumannPhotobook.FinishClose | src/App.jsx:72-77 | The closing callback leaves the book closed and not closing, on page 0 of `all`, with no callback waiting. The cover goes from Closing to Closed. |

## Left out

- Rendering, inline styles, hover handlers and CSS transitions (src/App.jsx:80-351) are presentation. Only the values they show are modelled: the visible slice, the empty-chapter message, the page label and the disabled state of the buttons.
- The 600 ms and 800 ms timer delays are not modelled. Each `setTimeout` is a begin step plus a completion step, and the completion runs at a later call chosen by the caller.
- Photobook.NeumannPhotobook.NextPage: requires that no callback is waiting. The component would schedule a second callback, and the model runs one transition at a time.
- Photobook.NeumannPhotobook.PrevPage: requires that no callback is waiting, for the same reason as `NextPage`.
- Photobook.NeumannPhotobook.CloseBook: requires that no callback is waiting, for the same reason as `NextPage`.
- Photobook.NeumannPhotobook.HandleCategoryChange: requires that no page turn is waiting. In the component, a chapter change made during the 600 ms turn lets the late callback set `currentPage` to an index computed for the old chapter. That index can be past the last page of the new chapter, for example page 1 of a chapter with one page. This race between timers is outside the model.
- `Math.ceil` over a floating-point division is modelled as an integer ceiling. The two agree for every catalog shorter than 2^53 photos.
- `Pager.Page` takes a non-negative page index. JavaScript's `slice` with a negative start counts from the end, but the invariant keeps `currentPage` from going negative.
- The photo fields `desc` and `emoji` and the chapter fields `name` and `emoji` are display strings and are not modelled.
- Uploading photos to remote blob storage and listing them, with the `isUploading` flag and the validation and transport errors, do not appear in `src/App.jsx`. That code is not part of this model.

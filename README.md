# Record dashboard view pipeline and profile initials, in Dafny

This project models the logic of a small React single-page application
that shows a searchable, sortable, paginated table of "comment" records
and a profile page. What it models:

- the dashboard's view state (`currentPage`, `recordsPerPage`,
  `searchTerm`, `sortConfig`) and the event handlers that overwrite it:
  the three-state sort cycle of a header click, the search box, the
  page-size selector and the Previous / page-number / Next buttons
  (`DashboardState.Dashboard`, a class whose fields are the state);
- the pipeline that turns the fetched records into the rows on screen:
  the case-insensitive search filter, the copy-then-sort with a three-way
  comparator, the page count, the page slice and the window of page
  buttons (`ViewPipeline`, over `Records` and `Text`);
- the avatar initials of the profile page (`Profile`).

The fetched records are an input: the constructor of `Dashboard` takes
them as the state once loading has finished.

Behaviour worth noting, read from the code:

- The search callback tests `name`, then `email`, then `phone`, never
  `body`. The records are stored exactly as fetched, with no `phone`
  field, so for a search term that neither the name nor the email of a
  record contains, `record.phone.toLowerCase()` throws. `Record.phone` is
  an `Option<string>` and `Filter` returns `PhoneMissing(i)` for the
  first record `i` where that happens; `ComputeView` then returns
  `Crashed(i)`. `Scenarios.SearchReachesMissingPhone` shows it on two
  records with no phone: searching "an" throws at the record named Bob,
  although the record named Ann matches.
- The initials are not upper-cased: every initial is a character of the
  name as it is.
- An empty piece of the name (two spaces in a row) gives `undefined` for
  `n[0]`, which `join("")` renders as nothing.
- Next is disabled only when `currentPage == totalPages`, so when no
  record matches (`totalPages == 0`) Next stays enabled and advances the
  page.
- Changing the search term or the page size resets the page to 1; nothing
  else clamps it.
- Nothing catches the error the filter throws, so a render that throws
  ends the page: every handler of `Dashboard` requires that the current
  render showed the table (`ShownTotalPages().Some?`), and
  `Scenarios.SearchCrashes` shows a search that makes the next render
  throw.

Modules: `Wrappers` (the `Option` type), `Text` (ASCII lower-casing,
`includes`, string `<`), `Records` (the record, the sort configuration,
the header-click cycle, the comparator), `ViewPipeline` (filter, sort,
pagination, one render), `DashboardState` (the view-state class),
`Profile` (initials), `Scenarios` (concrete cases, and four client
methods that drive a `Dashboard` through sort clicks, page buttons, a
first render and a search that makes the render throw, using only the
contracts of the handlers, of `Render` and of the button predicates).

## Model

| member | source | states |
|---|---|---|
| `Text.LowerChar` | src/components/DashBoard.js:47-49 | `toLowerCase` maps an ASCII capital to the lower-case letter at the same place in the alphabet and leaves every other character as it is |
| `Text.Lower` | src/components/DashBoard.js:47-49 | the lower-cased string has the same length, with every character lower-cased |
| `Text.Includes` | src/components/DashBoard.js:47-49 | `s.includes(t)` is true exactly when `t` occurs at some index of `s` |
| `Text.EmptyIncluded` | src/components/DashBoard.js:47 | the empty term is included in every string |
| `Text.LexLessMeaning` | src/components/DashBoard.js:67-68 | `a < b` on strings (`LexLess`) holds exactly when `a` is a proper prefix of `b` or the two first differ at an index where `a` has the smaller code unit |
| `Text.LexLessTransitive` | src/components/DashBoard.js:67-68 | JavaScript's `<` on strings is transitive |
| `Text.LexLessTotal` | src/components/DashBoard.js:67-68 | of two different strings one is `<` the other |
| `Text.LexLessAsymmetric` | src/components/DashBoard.js:67-68 | `a < b` and `b < a` never both hold |
| `Records.NextSort` | src/components/DashBoard.js:53-62 | `requestSort(k)`: from `(k, asc)` to `(k, desc)`, from `(k, desc)` to `(null, null)`, from anything else to `(k, asc)`; the result always has a key exactly when it has a direction |
| `Records.ThreeClicksReset` | src/components/DashBoard.js:13 | from the initial unsorted state, clicks on one column give asc, desc, then unsorted again |
| `Records.CycleOfThree` | src/components/DashBoard.js:53-62 | once column `k` is sorted, three more clicks on it restore the configuration |
| `Records.Compare` | src/components/DashBoard.js:66-70 | the comparator returns -1, 0 or 1; 0 exactly when the keys are equal, negative exactly when `a[key] < b[key]` ascending or `a[key] > b[key]` descending |
| `Records.InOrderMeaning` | src/components/DashBoard.js:66-70 | the comparator lets `a` precede `b` exactly when `a[key] <= b[key]` ascending, `a[key] >= b[key]` descending |
| `Records.InOrderTransitive` | src/components/DashBoard.js:66-70 | the comparator's "not after" relation is transitive, so it is a consistent order for `sort` |
| `Records.InOrderSwap` | src/components/DashBoard.js:66-70 | two records the comparator puts out of order are in order once exchanged |
| `ViewPipeline.ProbeRecord` | src/components/DashBoard.js:46-49 | the filter callback keeps a record exactly when the lower-cased term is in its lower-cased name, email or phone, and throws exactly when name and email miss and the phone is absent |
| `ViewPipeline.Filter` | src/components/DashBoard.js:45-50 | the filter fails exactly when some record's callback throws, and then at the first such record |
| `ViewPipeline.FilterRows` | src/components/DashBoard.js:45-50 | when the filter does not throw, its rows are a subsequence of the records holding every copy of each matching record and nothing else, so the matching records in their original order |
| `ViewPipeline.FilterKeepsExactlyMatches` | src/components/DashBoard.js:45-50 | a record is among the rows exactly when it is among the records and matches the search |
| `ViewPipeline.EmptyTermKeepsAll` | src/components/DashBoard.js:45-50 | the empty search term keeps every record, in order, without throwing |
| `ViewPipeline.NeighboursToSorted` | src/components/DashBoard.js:66-70 | neighbours in comparator order make the whole sequence sorted |
| `ViewPipeline.SwapKeepsKeyGroups` | src/components/DashBoard.js:66-70 | exchanging neighbours with different keys keeps the order of every group of equal-key records |
| `ViewPipeline.SortInPlace` | src/components/DashBoard.js:66-70 | the in-place sort leaves the array sorted by the comparator, a permutation of what it was, and stable |
| `ViewPipeline.InsertLeft` | src/components/DashBoard.js:66-70 | one insertion pass extends the ordered prefix by one record, keeps the records and their equal-key order, and leaves the records after it in place |
| `ViewPipeline.SwapKeepsOrder` | src/components/DashBoard.js:66-70 | moving the inserted record one place left keeps the insertion pass's ordering invariant |
| `ViewPipeline.SortedRecords` | src/components/DashBoard.js:64-71 | without both a key and a direction the sorted rows equal the filtered rows; with them they are a stable sorted permutation of them |
| `ViewPipeline.SortedMeaning` | src/components/DashBoard.js:64-71 | sorted ascending output is non-decreasing on the key, descending output non-increasing |
| `ViewPipeline.TotalPages` | src/components/DashBoard.js:74 | `Math.ceil(count / perPage)`: the fewest pages that hold `count` rows, 0 exactly when there are none |
| `ViewPipeline.SliceIndex` | src/components/DashBoard.js:77 | where `slice` puts an index: a non-negative one is cut to the length, a negative one counts from the end and stops at 0 |
| `ViewPipeline.Slice` | src/components/DashBoard.js:77 | `slice(start, end)` is never longer than `end - start`, and for non-negative indices it is the part of `[start, end)` inside the sequence |
| `ViewPipeline.CurrentRecords` | src/components/DashBoard.js:75-77 | the page holds at most `perPage` rows and, from page 1 on, is the window `[(page-1)*perPage, page*perPage)` cut to the rows that exist |
| `ViewPipeline.PagesUpToPrefix` | src/components/DashBoard.js:75-77 | pages 1 to `k` concatenated are the first `k * perPage` rows |
| `ViewPipeline.PagesRebuildAll` | src/components/DashBoard.js:74-77 | pages 1 to `totalPages` concatenated are exactly the sorted rows |
| `ViewPipeline.PageOccupancy` | src/components/DashBoard.js:74-77 | a page from 1 on has rows exactly when it is at most `totalPages`; pages before the last are full and the last holds the remainder |
| `ViewPipeline.PaginationRange` | src/components/DashBoard.js:79-85 | the consecutive pages from `max(1, p-1)` to `min(totalPages, p+1)`: at most 3, all in `[1, totalPages]`, containing `p` when `1 <= p <= totalPages` |
| `ViewPipeline.ComputeView` | src/components/DashBoard.js:45-85 | one render: crashes at the filter's failing record exactly when the filter throws; otherwise the filtered rows (unsorted, or a stable sorted permutation of them), their page count, the current page's slice and exactly the consecutive page buttons from `max(1, p-1)` to `min(totalPages, p+1)` |
| `DashboardState.Dashboard.constructor` | src/components/DashBoard.js:8-13 | the initial state: page 1, 10 per page, empty search, unsorted; its first render shows the table |
| `DashboardState.Dashboard.ShownTotalPages` | src/components/DashBoard.js:45-74 | the current render throws exactly when the filter does; otherwise its page count is the fewest pages holding the matching records, 0 exactly when none match |
| `DashboardState.Dashboard.PreviousDisabled` | src/components/DashBoard.js:177 | Previous is disabled exactly on page 1, the first page |
| `DashboardState.Dashboard.NextDisabled` | src/components/DashBoard.js:191 | Next is disabled exactly on page `totalPages`: enabled on every page before it and every page past it, so with 0 pages it is never disabled on a page from 1 on |
| `DashboardState.Dashboard.RequestSort` | src/components/DashBoard.js:53-62 | the header click, on a shown table, sets `sortConfig` to the next configuration of the cycle and changes nothing else; the table stays shown |
| `DashboardState.Dashboard.ChangeSearch` | src/components/DashBoard.js:107-110 | a new search term, typed on a shown table, sets the page to 1 and leaves page size and sort unchanged; the next render may throw |
| `DashboardState.Dashboard.ChangePageSize` | src/components/DashBoard.js:199-206 | a new page size (10, 50 or 100), chosen on a shown table, sets the page to 1 and leaves search and sort unchanged; the table stays shown |
| `DashboardState.Dashboard.ClickPrevious` | src/components/DashBoard.js:177-179 | Previous does nothing on page 1 and otherwise goes back one page, so the page never drops below 1 |
| `DashboardState.Dashboard.ClickNext` | src/components/DashBoard.js:191-193 | Next does nothing only on page `totalPages` and otherwise advances one page, also when `totalPages` is 0 |
| `DashboardState.Dashboard.ClickPage` | src/components/DashBoard.js:181-189 | a page-number button of a shown table sets the page to its number |
| `DashboardState.Dashboard.Render` | src/components/DashBoard.js:41-85 | the current state's render: the crash at the filter's failing record, or the matching records unsorted or stably sorted by `sortConfig`, the current page's slice of them (at most `recordsPerPage` rows), `ShownTotalPages()` pages and the buttons from `max(1, p-1)` to `min(totalPages, p+1)` |
| `Profile.Split` | src/components/Profile.js:23 | `split(" ")` gives at least one piece and no piece holds a space |
| `Profile.SplitJoinRoundTrip` | src/components/Profile.js:23 | joining the pieces with single spaces gives the name back |
| `Profile.SplitCount` | src/components/Profile.js:23 | there is one piece more than there are spaces |
| `Profile.SplitChars` | src/components/Profile.js:23 | every character of a piece is a character of the name |
| `Profile.Initials` | src/components/Profile.js:22-25 | one initial per non-empty piece of `split(" ")`, the i-th being the first character of the i-th non-empty piece |
| `Profile.NonEmpty` | src/components/Profile.js:24-25 | the non-empty pieces: no more of them than pieces, each one of the pieces and non-empty, and every non-empty piece among them |
| `Profile.InitialsAreFirstChars` | src/components/Profile.js:22-25 | one initial per non-empty piece, the i-th being the first character of the i-th non-empty piece, each a character of the name (no case change) |
| `Profile.InitialsOfOneWord` | src/components/Profile.js:22-25 | a name without spaces gives its first character; the empty name gives "" |
| `Profile.InitialsLength` | src/components/Profile.js:22-25 | at most one initial more than there are spaces, and no more initials than characters |
| `Scenarios.SearchReachesMissingPhone` | src/components/DashBoard.js:26-29 | searching "an" over Bob and Ann without phones throws at Bob; over Ann alone it keeps Ann |
| `Scenarios.SortByPostId` | src/components/DashBoard.js:64-71 | any sorted permutation of Bob (post 2) and Ann (post 1) by `postId` is Ann, Bob ascending and Bob, Ann descending |
| `Scenarios.TwentyFiveRows` | src/components/DashBoard.js:74-77 | 25 rows at 10 per page: 3 pages, the third holding 5 rows, the fourth empty |

## Left out

- Fetching the records and the user (`fetch`, `response.ok`, `json()`,
  `useEffect`), the loading and error states and all rendering, styling
  and sort indicators: network I/O and presentation. The records are an
  input of `Dashboard`'s constructor; the user's name is the input of
  `Profile.Initials`.
- `src/App.js`: routing only.
- Lower-casing is ASCII only (`Text.LowerChar`), and characters stand for
  UTF-16 code units; full Unicode `toLowerCase` is not modelled.
- JavaScript's `<` across mixed value types: `postId` is an `int` and
  `name` / `email` are strings compared by code unit.
- `Array.prototype.sort`'s own algorithm: `SortInPlace` is an insertion
  sort with the same comparator, specified by what any stable sort
  returns (sorted, a permutation, equal keys in their original order).
- `Dashboard.ClickNext` takes the `totalPages` of the render that showed
  the button as a parameter tied by its precondition to the state, and
  `Dashboard.ClickPage` takes the number on the clicked button; the
  buttons themselves are not objects of the model.
- React's batching of `setSearchTerm` / `setCurrentPage` into one update
  is not modelled; each handler is one atomic state change.

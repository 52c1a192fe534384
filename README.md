# Catalog listing, pagination, search and escaping — a verified model

The catalog application serves three collections (books, courses, notes) from a
document store and renders them in the browser. This project models the parts
of it that carry logic:

- **The notes listing endpoint** (`GET /api/notes` in `server.js`). It defaults
  the `page` query value, skips `(page − 1) × 3` notes of the collection sorted
  newest first, and returns at most three of them. The reply also carries
  `totalPages = ceil(total / 3)` and the requested page, which is not clamped.
- **The store operations the routes use**: insert, find-all, count and
  delete-by-id. The store is a `Collection` class whose identifiers increase
  with insertion, so sorting by `_id` descending is the reverse of insertion
  order.
- **The notes page** (`public/js/notes.js`). It renders one page of notes and
  builds the pagination controls: «, one link per page with the current one
  marked active, and ».
- **The books page** (`public/js/books.js`). It does four things:
  - builds `Book` objects with display defaults;
  - renders cards, with a Download link only when a URL is given;
  - runs a case-insensitive substring search over title, author and subject,
    from the search box and from a `?search=` URL parameter;
  - shows a "No books found" panel when the result is empty.
- **`escapeHtml`**, the five-step replace chain that every client script
  defines.

Files: `wrappers.dfy` (Option, Result), `html.dfy` (module `Html`), `text.dfy`
(module `Text`: ASCII `toLowerCase`, `includes`), `store.dfy` (module `Store`),
`notes_api.dfy` (module `NotesApi`), `notes_client.dfy` (module `NotesClient`),
`books_client.dfy` (module `BooksClient`).

Where the code is pure (the handler's arithmetic and window, the `Book`
constructor, the filter predicate, `escapeHtml`, the control sequence), the
model is made of functions and lemmas. Where the code clears a DOM container
and appends to it, the model uses a class: `NotesPage` and `BooksPage` hold the
container contents as `seq` fields. Their render methods carry loops whose
`ensures` equate the new contents with a specification function. The contents
never depend on the old ones, so a render always replaces and never appends.

## Model

| member | source | states |
|---|---|---|
| `NotesApi.RequestedPage` | server.js:96 | a missing, non-numeric or zero `page` gives 1; any other parsed integer is used as given; the page is never 0 |
| `NotesApi.TotalPages` | server.js:112 | `Math.ceil(total / 3)`: `n × 3 ≥ total`; `(n − 1) × 3 < total` when there are notes; `n = 0` exactly when there are none |
| `NotesApi.NewestFirst` | server.js:104-105 | the sorted collection has the same length, with element `i` the `i`-th from the end of insertion order |
| `NotesApi.NewestFirstDescending` | server.js:105 | with identifiers ascending in insertion order, the reversed collection is sorted by identifier descending |
| `NotesApi.NewestFirstMultiset` | server.js:104-105 | sorting keeps exactly the same notes |
| `NotesApi.ListNotes` | server.js:94-118 | a reply exactly when the page is ≥ 1 (otherwise the negative skip is a store error, status 500); the reply has `currentPage` = the requested page, unclamped; `totalPages = TotalPages(count)`; at most 3 notes; the window `[skip, skip+3)` of the newest-first collection, empty past its end |
| `NotesApi.PageSizes` | server.js:97-112 | 3 notes on every page before the last; `total − 3 × (totalPages − 1)` on the last; none past it |
| `NotesApi.PagesThroughPrefix` | server.js:98-107 | pages `1..k` concatenated are the first `min(3k, total)` notes newest first |
| `NotesApi.PagesPartition` | server.js:98-112 | pages `1..totalPages` concatenated are the whole collection, newest first |
| `NotesApi.PagesHoldEachNoteOnce` | server.js:98-112 | for a collection whose identifiers ascend, pages `1..totalPages` hold every note exactly once, identifiers strictly descending |
| `NotesApi.NewestNoteLeadsFirstPage` | server.js:96-107 | the note inserted last heads the default (first) page |
| `NotesApi.SevenNotes` | server.js:94-118 | with 7 notes, page 3 holds only the oldest note (totalPages 3, currentPage 3) and page 4 is empty with currentPage 4 |
| `Store.RemoveId` | server.js:193 | delete-if-exists: the remaining records are exactly those with another identifier, never more than before |
| `Store.RemoveIdAbsent` | server.js:190-198 | deleting an identifier that is not stored changes nothing |
| `Store.RemoveIdIdempotent` | server.js:190-198 | deleting the same identifier twice equals deleting it once |
| `Store.RemoveIdAscending` | server.js:190-219 | deletion keeps identifiers in ascending order |
| `Store.Collection.Insert` | server.js:133-186 | the record is appended under a fresh identifier larger than every earlier one; the collection invariant holds |
| `Store.Collection.Delete` | server.js:190-219 | the collection becomes `RemoveId` of the old one, found or not; the invariant holds |
| `Store.Collection.FindAll` | server.js:120-128 | every stored record, in the model's natural order (insertion order, identifiers ascending; see Left out) |
| `Store.Collection.CountDocuments` | server.js:101 | the number of stored records |
| `NotesClient.ControlCount` | public/js/notes.js:58-101 | `totalPages + [currentPage > 1] + [currentPage < totalPages]` controls; none for `totalPages = 0`, `currentPage = 1` |
| `NotesClient.PrevControl` | public/js/notes.js:62-72 | a « control exists iff `currentPage > 1`; it is first and targets `currentPage − 1` |
| `NotesClient.NextControl` | public/js/notes.js:90-100 | a » control exists iff `currentPage < totalPages`; it is last and targets `currentPage + 1` |
| `NotesClient.NumberedControls` | public/js/notes.js:75-87 | after the optional «, one link per page `1..totalPages` in increasing order, link `i` targeting page `i`, and no numbered link elsewhere |
| `NotesClient.ActiveControl` | public/js/notes.js:79-81 | at most one link is active, and it is the current page's; one is active iff `1 ≤ currentPage ≤ totalPages` |
| `NotesClient.ServedPageControls` | public/js/notes.js:58-101 | for a page the server answers within range, only that page is active and every control leads to a page in `1..totalPages` that holds notes |
| `NotesClient.ItemView` | public/js/notes.js:31-52 | a note's item carries its identifier for the delete form; category, title, meta and image are escaped, safe, and read back as the note's own values |
| `NotesClient.SectionShape` | public/js/notes.js:26-31 | no notes gives only the "No notes found on this page." message; otherwise one item per note, in the order received |
| `NotesClient.EmptyCollectionView` | public/js/notes.js:26-28 | an empty collection's first page shows only the message and no controls |
| `NotesClient.NotesPage.RenderNotes` | public/js/notes.js:23-55 | the notes container is replaced by `Section(notes)` |
| `NotesClient.NotesPage.RenderPagination` | public/js/notes.js:58-101 | the pagination container is replaced by `Controls(totalPages, currentPage)` |
| `NotesClient.NotesPage.FetchAndRender` | public/js/notes.js:6-20 | a reply renders its notes and its controls; a failed request shows the failure message and keeps the controls |
| `BooksClient.OrDefault` | public/js/books.js:8-11 | JavaScript `or` on a string field: the value when present and non-empty, else the fallback; never empty when the fallback is not |
| `BooksClient.NewBook` | public/js/books.js:5-13 | missing or empty description, cover URL, author and subject become "No description available.", the placeholder URL, "Unknown Author" and "General"; id, title and download URL pass through; author and subject are never empty |
| `BooksClient.Card` | public/js/books.js:15-41 | the Download link is present iff `downloadUrl` is non-empty; every text is escaped, safe and reads back as the book's value; an absent title shows as "undefined"; the delete form carries the book's id |
| `BooksClient.OnlyTitleCard` | public/js/books.js:5-31 | a record with only a title shows the four defaults and no Download link |
| `BooksClient.Filter` | public/js/books.js:92-98 | a book is kept iff it matches; each kept book occurs as often as in the input, the others not at all |
| `BooksClient.FilterSubsequence` | public/js/books.js:92-98 | the filter result is the input with books left out, order kept |
| `BooksClient.Search` | public/js/books.js:89-98 | the search fails (the predicate throws) exactly when some loaded book has no title |
| `BooksClient.SearchResult` | public/js/books.js:89-98 | with all titles present, a book is in the result iff the lowercased term occurs in its lowercased title, author or subject; the result is an order-preserving subsequence of the loaded list, nothing added or repeated |
| `BooksClient.EmptySearchKeepsAll` | public/js/books.js:89-98 | an empty search text returns the whole loaded list |
| `BooksClient.SearchIgnoresCase` | public/js/books.js:89 | searching for a text and for its lowercase form gives the same result |
| `BooksClient.NoBooksFoundAsWrittenInjects` | public/js/books.js:74 | as written, a search text holding markup reaches the panel raw (see Findings) |
| `BooksClient.NoBooksFoundPanel` | public/js/books.js:70-77 | the corrected panel shows the search text escaped, safe, and reads back as the text typed |
| `BooksClient.GridSafe` | public/js/books.js:66-84 | every card and panel the grid can show is free of raw markup (corrected panel, see Findings) |
| `BooksClient.BooksPage.RenderBooks` | public/js/books.js:66-84 | the grid is replaced by the panel for an empty list, otherwise by one card per book in order (corrected panel, see Findings) |
| `BooksClient.BooksPage.Load` | public/js/books.js:48-62 | a reply becomes the loaded list of normalised books and is rendered; a failed request shows the failure message |
| `BooksClient.BooksPage.ApplySearch` | public/js/books.js:92-101 | the grid shows the filtered loaded list, or is left as it was when the filter throws |
| `BooksClient.BooksPage.OnInput` | public/js/books.js:88-102 | the box holds the typed text and the grid shows `Search(allBooks, text)` |
| `BooksClient.BooksPage.AutoSearch` | public/js/books.js:116-136 | a non-empty `search` parameter is put in the box and gives the same grid as typing it; an absent or empty one changes nothing |
| `Text.Lower` | public/js/books.js:89 | same length; each character folded to ASCII lower case |
| `Text.Includes` | public/js/books.js:94-96 | `s.includes(sub)` holds iff `sub` occurs in `s` at some offset |
| `Text.IncludesEmpty` | public/js/books.js:89-98 | every string includes "" |
| `Html.EscapeHtmlIsEscapeEach` | public/js/books.js:106-113 | the five-step chain equals escaping each character on its own |
| `Html.EscapeHtmlSafe` | public/js/books.js:106-113 | the output holds no `<`, `>`, `"` or `'`; every `&` in it opens `&amp;`, `&lt;`, `&gt;`, `&quot;` or `&#39;` |
| `Html.EscapeHtmlPlain` | public/js/books.js:106-113 | text without the five special characters is returned unchanged |
| `Html.EscapeHtmlRoundTrip` | public/js/notes.js:104-111 | reading the entities back gives the input, so distinct texts never render alike (the notes.js copy is the same chain) |
| `Html.AmpersandOrderMatters` | public/js/books.js:108-109 | `&` must go first: the same chain with the `&` step last turns `<` into `&amp;lt;`, unlike `escapeHtml` |

## Findings

| source | as written | input that shows it | evidently intended | confidence | as-written member | corrected member |
|---|---|---|---|---|---|---|
| public/js/books.js:74 | the "No books found" panel puts the search box's text into `innerHTML` without `escapeHtml` | the URL `/books?search=<img src=x onerror=alert(1)>` (or typing that text) when no book matches: the markup is parsed and its handler runs | escape the text like every other interpolated value in the file | not executed; high | `BooksClient.NoBooksFoundAsWrittenInjects` | `BooksClient.NoBooksFoundPanel` |

`BooksPage` renders the corrected panel.

## Behaviour worth knowing

- The auto-search timer (public/js/books.js:125) is set only after the awaited
  load (public/js/books.js:49). So it always filters the loaded list, or the
  empty list when the load failed. The model applies `AutoSearch` after `Load`.
- The filter calls `book.title.toLowerCase()` first (public/js/books.js:94).
  One loaded book without a title makes every search throw. `Search` returns
  that failure, and the grid stays as it was.

## Left out

- Express setup, the page routes, static serving, body parsing and
  `app.listen` (server.js:1-71, 224-227): framework plumbing.
- The store's own failures: connection loss and rejected writes. These are the
  500 replies on reads and the 400 replies on create and delete. Only the
  negative-skip rejection of the notes query is modelled.
- The redirects that follow create and delete. A malformed identifier (a
  `CastError`) is not modelled: identifiers are natural numbers.
- ObjectId generation: identifiers are a counter that grows with each insert.
  Real ObjectIds are ordered by creation second and a counter, which gives the
  same order for one server.
- The count and the page read in `GET /api/notes` come from the same
  collection. Writes from other requests between the two calls are not
  modelled.
- `Text.Lower`: folds ASCII letters only, because full Unicode `toLowerCase`
  (special casing, non-Latin scripts) is outside the model.
- `NotesApi.RequestedPage`: `parseInt`'s own parsing (leading spaces, "12abc" →
  12, arrays as query values) is not modelled. The query is already an optional
  integer.
- `NotesApi.ListNotes`: page numbers, the skip `(page - 1) * 3` and the page
  count are unbounded integers. In server.js:96-113 they are JavaScript
  doubles, which round past 2^53, and the store rejects a skip beyond its
  64-bit range with a 500 reply. For such a huge page the model answers with
  an empty page instead.
- `Store.Collection.FindAll`: `find()` without `sort()` (server.js:86, 123)
  returns the store's natural order, which the store does not promise. The
  model assumes it is insertion order.
- `NotesClient.ItemView`: note fields are strings. A missing note field would
  print "undefined" through `String(undefined)`; that case is not modelled.
- `fetch` itself, HTTP status checks and JSON parsing are not modelled. Each
  outcome reaches the pages as a parameter: a body, or `None` for any failure.
- Overlapping page requests on the notes page: with quick clicks, an older reply that arrives late can overwrite a newer one. Each `FetchAndRender` call models one reply that has already arrived.
- Event listeners, `confirm()` dialogs, the missing-element (`null`) checks on
  the search box, and rendering markup and styles beyond each card's texts,
  Download link and delete identifier.
- The 500 ms timer of the auto-search and the enroll toast timer
  (public/js/courses.js:60-72). public/js/courses.js is not part of this model;
  its `escapeHtml` is the same chain as `Html.EscapeHtml`.
- The schemas in models/*.js only declare fields. Courses are a
  `Store.Collection` like the others, listed by `FindAll`.

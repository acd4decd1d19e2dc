# REEDU exam-book marketplace — a Dafny model of its listing, saving and page logic

REEDU is a React front end over a hosted Supabase (PostgreSQL) backend. Students use it to list, browse, rent and save second-hand exam-preparation books. This project models the part of it that makes decisions. The backend is an in-memory store, `BookStore.Store`, which holds:

- a sequence of `books` rows;
- the joined `book_images` and `book_conditions`;
- the set of saved (user, book) pairs.

Each row carries its own `views_count` and `saves_count`.

On top of that store the model covers:

- **`BookQuery`** composes the browse query (`getBooks`).
  - It builds a list of predicates: status, exam, subject, condition, city, state, listing type, price bounds and title.
  - It filters the table, sorts it newest first and takes the pagination window.
  - A reference predicate `SatisfiesFilters` is written field by field. `ComposeIsConjunction` proves that the composed predicate list means "available and satisfies every supplied filter".
- **`BookStore`** covers the rest of the data-access file:
  - the save toggle with its counter RPCs;
  - `getBookById`, including the saved flag and the view increment;
  - the seller-scoped update and delete;
  - create;
  - the user's own listings;
  - the saved-books list, which drops missing joins.
- **`Browse`** is the browse page:
  - filter changes;
  - writing filters to URL parameters and reading them back;
  - resolving the exam and subject by slug and the condition by name;
  - the criteria it hands to `getBooks`.
- **`SellBook`** is the new-listing form:
  - the image list, bounded at five, and its previews;
  - removing an image;
  - the subject reset when the exam changes;
  - the empty-price rule;
  - the rule that the first upload's result decides the cover;
  - the submit outcomes.
- **`BookDetail`** is the detail page:
  - the gallery fallback;
  - the placeholder;
  - the saved heart on load and on toggle;
  - the choice between the seller's panel and a visitor's panel.
- **`Dashboard`** is the seller dashboard:
  - deleting from the local list, kept in step with the store;
  - the status badge.
- **`BookCard`** and **`AnimatedBookCard`** are the two listing cards:
  - the condition colour;
  - the local heart and saves count.

  The animated card repeats the plain card's code. It is written out again and proved equal to the plain card.

Supporting modules:

- `Wrappers` holds `Option`.
- `Text` holds ASCII lower-casing and the case-insensitive substring test that stands in for PostgreSQL `ILIKE '%x%'`.
- `Seqs` holds order-preserving filtering and index removal.
- `Types` holds the row and filter records from `src/types`.

Modelling conventions:

- **Backend failures are explicit inputs.** The counter RPC has its own fault flag. Examples are `backendFails` and the fault records `ToggleFaults` and `FetchFaults`. Each operation follows the source's branch on that path; where a result is simplified (an error object dropped, a joined record narrowed), "## Left out" says so.
- **SQL `NULL` is `None`.** A NULL price fails every price bound.
- **JavaScript truthiness of an optional string is `Types.Truthy`.** It means present and non-empty.

## Model

| member | source | states |
|---|---|---|
| BookQuery.Compose | src/lib/api/books.ts:19-56 | the chained predicates always start with `status = available`, and there are at most ten of them (one per filter field at most) |
| BookQuery.ComposeIsConjunction | src/lib/api/books.ts:19-56 | a row passes every composed predicate exactly when it is available and satisfies every supplied filter at once (a conjunction) |
| BookQuery.EmptyStringFiltersAddNothing | src/lib/api/books.ts:22-44 | a string filter set to the empty string composes exactly the predicates it would compose if it were undefined |
| BookQuery.NullPriceFailsEveryBound | src/lib/api/books.ts:46-52 | whenever a minimum or maximum price is defined, 0 included, a row whose price is NULL is excluded |
| BookQuery.Matching | src/lib/api/books.ts:19-56 | the matching rows are exactly the table rows satisfying the composed predicates, each as many times as in the table |
| BookQuery.InsertByAge | src/lib/api/books.ts:20 | inserting a row into a newest-first list keeps it newest first and is a permutation of the row plus the list |
| BookQuery.SortNewestFirst | src/lib/api/books.ts:20 | the result is ordered by creation time descending and is a permutation of the input |
| BookQuery.Window | src/lib/api/books.ts:58-62 | the inclusive range [from, to] keeps exactly the rows whose index is in that range and in the table, in order |
| BookQuery.PageWindow | src/lib/api/books.ts:58-62 | a page holds at most `limit` rows |
| BookQuery.GetBooks | src/lib/api/books.ts:4-73 | on error: empty list and count 0; on success: no count, every row is in the table, available, satisfies the filters, newest first, at most `limit` rows, and without pagination every matching row appears |
| BookQuery.PageIsWindowOfFullListing | src/lib/api/books.ts:58-62 | a page is the window [(page-1)*limit, (page-1)*limit+limit-1] of the unpaginated listing |
| BookQuery.ConsecutivePagesAreContiguous | src/lib/api/books.ts:58-62 | page P followed by page P+1 is exactly the window covering both, so page P+1 starts right after page P |
| BookQuery.PageBelowOneIsEmpty | src/lib/api/books.ts:58-62 | page numbers below 1 are not rejected; with a non-negative limit such a page is empty |
| Text.Lower | src/lib/api/books.ts:35 | lower-casing keeps the length, turns each upper-case ASCII letter into its own lower-case letter and changes nothing else |
| Text.ContainsIffOccurs | src/lib/api/books.ts:35 | the substring test holds exactly when the pattern occurs at some offset |
| Text.ILikeIgnoresCase | src/lib/api/books.ts:35 | the ILIKE test gives the same answer whatever the case of the column or the pattern |
| BookStore.ToggleSave | src/lib/api/books.ts:202-237 | a saved pair is removed and an unsaved one inserted, and the reported `saved` tells which; only that pair and that book's counter (by +1 or -1) change; it fails exactly when a write fails (a backend error) or a failed lookup hid an existing pair (whose re-insert is a unique-key violation); any failure leaves the store unchanged and reports `saved=false` |
| BookStore.ToggleTwiceRestores | src/lib/api/books.ts:211-232 | two fault-free toggles restore the whole store, saved set and counters included, and report opposite `saved` values |
| BookStore.ToggleKeepsCountersExact | src/lib/api/books.ts:211-232 | if every counter equals its number of savers, a toggle whose counter RPC succeeds keeps that so |
| BookStore.CounterFailureDrifts | src/lib/api/books.ts:219-229 | from any store whose counters equal their savers, a toggle of an existing book whose counter RPC fails is ignored: it reports success while that book's counter no longer matches its savers |
| BookStore.FailureLooksLikeUnsave | src/lib/api/books.ts:233-236 | a failed toggle of a saved pair reports `saved=false`, the same shape as a successful unsave, and the pair stays saved |
| BookStore.GetBookById | src/lib/api/books.ts:75-121 | an absent id gives "Book not found"; two or more rows with the id are an error and exactly one is a success (`maybeSingle`); a returned book is a row with that id plus its images and the name of its condition; `is_saved` holds iff a non-empty user id was given, the saved lookup answered and the pair is saved; unless the ignored view update fails, every row with that id gains one view; nothing else changes |
| BookStore.TwoFetchesAddTwoViews | src/lib/api/books.ts:107-111 | when exactly one row has the id, two fault-free fetches both succeed and add exactly two views to it |
| BookStore.ConditionName | src/lib/api/books.ts:83 | the joined condition name belongs to a condition with the row's id, and is missing only when no condition has that id |
| BookStore.UpdateBook | src/lib/api/books.ts:143-160 | a backend failure is an error; otherwise exactly one row with that id and seller is patched and returned, and any other number of such rows is a `.single()` error with nothing changed; every other row is untouched |
| BookStore.DeleteBook | src/lib/api/books.ts:162-177 | on success exactly the caller's rows with that id are removed, and every other row keeps its multiplicity |
| BookStore.DeleteSparesOtherSellers | src/lib/api/books.ts:166-168 | another seller's row survives any delete |
| BookStore.CreateBook | src/lib/api/books.ts:123-141 | on success the submitted row, with the caller as seller, is appended and returned |
| BookStore.GetUserBooks | src/lib/api/books.ts:179-200 | the caller's own rows, all of them, newest first; empty on error |
| BookStore.JoinBook | src/lib/api/books.ts:243-252 | a saved row's embedded book is a stored row with that id, with its images and its condition's name, and is null exactly when no row has the id |
| BookStore.GetSavedBooks | src/lib/api/books.ts:239-266 | given the user's saved rows, every book listed is a stored row the user has saved, every saved pair whose book exists is listed, and missing joins are dropped; the list has one entry per saved row whose book joins, in the order of the saved rows, each being that row's join; empty on error |
| BookStore.JoinKeepsOrder | src/lib/api/books.ts:254-259 | joining each saved row and dropping the nulls leaves one entry per row whose book joins, in the rows' order |
| BookStore.SavedByToggleIsListed | src/lib/api/books.ts:202-266 | a book the user has just saved by a fault-free toggle appears in their saved list |
| BookStore.PresentAppend | src/lib/api/books.ts:259 | dropping missing joins keeps the order of the rest |
| Browse.ChangeFilter | src/pages/Browse.tsx:77-82 | the changed key takes the new value; changing the exam also clears the subject; every other field is unchanged |
| Browse.EncodeParams | src/pages/Browse.tsx:84-87 | the parameters are exactly the non-empty filter fields, under the field's own name |
| Browse.ReloadLosesQuery | src/pages/Browse.tsx:19-25 | reading back the written parameters restores every field except the query, which comes back empty |
| Browse.ReloadRestoresFilters | src/pages/Browse.tsx:19-25 | with the query read under the name it is written with, reading back the written parameters restores every field |
| Browse.HandleFilterChange | src/pages/Browse.tsx:77-89 | the new filter state is the changed filters; the page's own reader gets back from the written parameters every field but the query, which comes back empty, while a reader using the written names would get back the whole state |
| Browse.FindFirst | src/pages/Browse.tsx:61-63 | the index found is the first whose key matches; none is found only when no element matches |
| Browse.SearchCriteria | src/pages/Browse.tsx:59-71 | only query, exam, subject, condition and city are forwarded; the exam and subject are the ids of the first category and subject with that slug, the condition the id of the first condition with that name, each absent exactly when nothing matches |
| Browse.ResolveExam | src/pages/Browse.tsx:61 | the id of the first category with the slug, absent exactly when no category has it |
| Browse.ResolveSubject | src/pages/Browse.tsx:62 | the id of the first subject with the slug, absent exactly when no subject has it |
| Browse.ResolveCondition | src/pages/Browse.tsx:63 | the id of the first condition with the name, absent exactly when no condition has it |
| Browse.UnknownExamImposesNothing | src/pages/Browse.tsx:61 | an exam slug that matches no category places no constraint on the exam |
| Browse.LoadBooks | src/pages/Browse.tsx:59-75 | the books shown are available rows of the table that satisfy the forwarded criteria, newest first, and every such row is shown as often as it occurs; empty on error |
| SellBook.AddImages | src/pages/SellBook.tsx:72-88 | more than five in total: "Maximum 5 images allowed" and both lists unchanged; otherwise the files are appended in order; at most five images with one preview each is preserved |
| SellBook.RemoveImage | src/pages/SellBook.tsx:90-93 | exactly index i is dropped from the images and the previews, the rest keep their order; an out-of-range index changes nothing |
| SellBook.FullListRefusesMore | src/pages/SellBook.tsx:352 | when the upload control is hidden, adding another image is refused |
| SellBook.SelectExam | src/pages/SellBook.tsx:200 | choosing an exam sets it and clears the subject, and nothing else changes |
| SellBook.PriceForCreate | src/pages/SellBook.tsx:105 | an empty price string becomes null; any other is parsed |
| SellBook.CoverUpdate | src/pages/SellBook.tsx:114-128 | a cover update is issued iff the first upload's result has a non-empty URL, and it names that URL |
| SellBook.FirstUploadDecidesCover | src/pages/SellBook.tsx:118 | a failed first upload gives no cover even when a later upload succeeded |
| SellBook.Submit | src/pages/SellBook.tsx:95-135 | signed out is reported exactly when there is no user; a failed create reports a non-empty message; a submitted listing is the created row's id, and a cover request is made iff the first image's upload has a URL, carrying that URL; a cover request that throws stops navigation and shows its message (or "Failed to create listing"); a created listing navigates whenever it makes no cover request or its cover request does not throw |
| SellBook.SubmitWithThreeImages | src/pages/SellBook.tsx:108-131 | creating a listing as the signed-in user and uploading three images submits that user's new row with a cover request for the first image's URL |
| BookDetail.Gallery | src/pages/BookDetail.tsx:63-67 | the joined image URLs in order when there are any; else the cover alone when it is set; else nothing |
| BookDetail.PlaceholderIffNoPicture | src/pages/BookDetail.tsx:82-111 | the placeholder is shown exactly when there is neither a joined image nor a cover |
| BookDetail.LoadBook | src/pages/BookDetail.tsx:25-38 | no id: nothing loads; a book with exactly one row is shown, and a failed, empty or ambiguous fetch redirects to browse without writing; a shown book has the requested id and carries that id's images and its condition's name; its heart starts filled iff the signed-in user saved it; showing it adds one view to its row unless that write fails; the saved pairs, images and conditions are unchanged |
| BookDetail.ToggleSave | src/pages/BookDetail.tsx:40-45 | without a user or id nothing changes; otherwise the store is the toggle's result and the heart shows the `saved` it reports; after a toggle that goes through, the heart shows the stored membership, which is the opposite of what it was; after a failed one (a failed write, or the re-insert of a pair a failed lookup hid) it shows "not saved" and the store is unchanged |
| BookDetail.ExactlyOnePanel | src/pages/BookDetail.tsx:196-218 | exactly one of the contact panel and the edit link is shown, and the edit link exactly for the seller |
| Dashboard.WithoutId | src/pages/Dashboard.tsx:38 | the local list keeps exactly the rows with a different id, each as many times as before |
| Dashboard.WithoutIdKeepsOrder | src/pages/Dashboard.tsx:38 | removal by id distributes over concatenation, so the order of the rest is kept |
| Dashboard.HandleDelete | src/pages/Dashboard.tsx:33-40 | with no user or no confirmation nothing happens; a failed delete leaves list and store unchanged; otherwise the store is what the seller-scoped delete leaves, and a successful one removes that id locally and the caller's rows with that id in the store; saved pairs, images and conditions are never touched |
| Dashboard.DeleteKeepsListInSync | src/pages/Dashboard.tsx:25-40 | a local list holding the user's listings still holds exactly the user's listings after a delete |
| Dashboard.StatusBadge | src/pages/Dashboard.tsx:106-110 | green exactly for available, gray exactly for sold, yellow exactly for the other statuses |
| BookCard.ConditionColor | src/components/Books/BookCard.tsx:26-41 | gray exactly when the condition is missing or its lower-cased name is not one of the five known names |
| BookCard.ConditionColorIgnoresCase | src/components/Books/BookCard.tsx:27 | the colour of a name equals the colour of its lower-cased form |
| BookCard.KnownConditionsDistinct | src/components/Books/BookCard.tsx:28-39 | the five known names get five different classes, none gray |
| BookCard.KnownConditionColors | src/components/Books/BookCard.tsx:28-37 | new is green, like new blue, good yellow, fair orange, poor red |
| BookCard.InitialCard | src/components/Books/BookCard.tsx:14-15 | the heart starts filled iff `is_saved` is true, and the count starts at the row's count |
| BookCard.ToggleOnCard | src/components/Books/BookCard.tsx:17-24 | without a user nothing changes; otherwise the store is the toggle's result, the heart takes the `saved` it reports, the local count moves by +1 when saved is reported and -1 otherwise, and a toggle that goes through shows the stored membership |
| BookCard.FailedToggleDecrements | src/components/Books/BookCard.tsx:21-23 | any failed toggle (a failed write, or the re-insert of a pair a failed lookup hid) leaves the store unchanged, reports "not saved" and still lowers the local count by one |
| BookCard.LocalCountFollowsRow | src/components/Books/BookCard.tsx:21-23 | starting from the row's counter, a fault-free toggle leaves the local count equal to the row's new counter |
| AnimatedBookCard.ConditionColor | src/components/Graphics/AnimatedBookCard.tsx:28-43 | the animated card's colour equals the plain card's for every condition |
| AnimatedBookCard.InitialCard | src/components/Graphics/AnimatedBookCard.tsx:16-17 | the animated card starts in the same state as the plain card |
| AnimatedBookCard.ToggleOnCard | src/components/Graphics/AnimatedBookCard.tsx:19-26 | the animated card's toggle equals the plain card's on every store, user and fault |

## Left out

- Network, storage and the Supabase client are not modelled:
  - image upload and public-URL generation (`uploadBookImage`);
  - metadata loading (categories, subjects, conditions);
  - client configuration.

  These are foreign calls. Their outcomes are parameters, such as `SellBook.Submit`'s `upload` function and the fault flags.
- Concurrency is not modelled:
  - the toggle reads and then writes without a lock, so two clients can race;
  - uploads run in parallel;
  - `FileReader` previews arrive asynchronously.

  Each is modelled as one atomic sequential step. Previews arrive in file order.
- ILIKE pattern syntax in user input is treated as literal characters. A `%` or `_` is not modelled as a wildcard, a `*` is not read as `%` (as the PostgREST filter syntax reads it), and a `\` does not escape the next character.
- Unicode case mapping is reduced to ASCII lower-casing.
- `parseFloat` is a parameter of `SellBook.PriceForCreate`. `toLocaleString` formatting is left out; prices are abstract reals.
- Clocks are left out: `Date.now` file names, and the `updated_at`/`created_at` stamps, which are inputs.
- The `/api/books/update` request is left out. Its endpoint is not in the repository, so the model produces the cover request but does not apply it to the store.
- The counter RPCs `increment_saves_count` and `decrement_saves_count` are not in the repository. Their effect is modelled as +1 and -1 on every row with that id.
- Foreign-key and cascade behaviour of the database is left out. A pair may be saved for an id no row has (the foreign key is not enforced), and deleting a book leaves its saved pairs and images.
- The backend's handling of a negative range offset (a page below 1) is left out. The window is read literally, as the indices in [from, to] that exist.
- The row order of joined images and the `saved_at` order of saved books are taken as given. The model returns images in store order and saved books in the order of the `pairs` input, which stands for the `saved_at` order.
- BookQuery.PageIsWindowOfFullListing and BookQuery.ConsecutivePagesAreContiguous: hold because the model fixes one tie order, `BookQuery.SortNewestFirst`, for every query. PostgreSQL leaves rows with equal `created_at` in no guaranteed order, and two queries with different offsets may order them differently, so in the program pages are contiguous only when the matching rows' `created_at` values are distinct.
- BookQuery.GetBooks: returns bare `books` rows rather than rows joined with their exam, subject, condition, seller and images. Without pagination it returns every matching row, while the hosted service caps a response at its configured maximum row count.
- BookStore.CreateBook: does not enforce the primary key on `books.id`, so a row whose id already exists is appended where the table would reject it. For the same reason `BookStore.GetBookById` and `BookStore.UpdateBook` have a more-than-one-row branch the real table never reaches.
- BookStore.GetUserBooks and BookStore.GetSavedBooks: return only the rows. On failure the source also returns the error object, which the model drops; the empty list stands for it.
- BookStore.UpdateBook: the patch covers title, description, price, status and cover image. The source's `updates: any` can set any column, `id` and `seller_id` included, and such patches are not modelled.
- `BookStore.GetBookById` reads `views_count || 0` as the row's integer count, because the row type makes the count non-null.
- `Browse.HandleFilterChange` covers only the five fields the page keeps. The TypeScript key type also admits state, listing type and prices, but the page never passes them.
- The joined exam, subject and seller profiles of `BookWithDetails` are left out. Only images, the condition name and the saved flag are modelled.
- Rendering, animation, routing, the loading skeletons and the confirmation dialog's text are left out. The dialog's answer is the `confirmed` parameter.

## Findings

| source | as written | input that shows it | evidently intended | confidence | as-written member | corrected member |
|---|---|---|---|---|---|---|
| src/pages/Browse.tsx:20, 86 | the search text is written to the URL under `query` but read back from `q` | filters with query "physics" and the other fields empty: the URL is `?query=physics`, and reloading it gives an empty query | the query survives a reload like the other filters | high; not executed | Browse.ReloadLosesQuery | Browse.ReloadRestoresFilters |

/** The data-access operations of the books API over an in-memory store:
    save toggling with its denormalized counter, the single-book fetch with
    its view counter, seller-scoped update and delete, creation, and the
    saved and per-seller listings. Each call is one atomic step; a failure of
    the hosted service at a given point is an explicit input. */
module BookStore {
  import opened Wrappers
  import opened Types
  import Seqs
  import BookQuery

  /** The tables the API touches. A `saved_books` row is identified by its
      (user, book) pair: at most one row per pair exists. */
  datatype Store = Store(
    books: seq<Book>,
    images: seq<BookImage>,
    conditions: seq<BookCondition>,
    saved: set<SavedPair>
  )

  // ---------------------------------------------------------------------------
  // Save toggle

  /** Which of the toggle's backend calls fail. A failed lookup is not
      reported by the code: it reads as "not saved". */
  datatype ToggleFaults = ToggleFaults(lookupFails: bool, writeFails: bool, counterFails: bool)

  const NoToggleFaults := ToggleFaults(false, false, false)

  datatype ToggleResult = ToggleResult(saved: bool, error: Option<ApiError>)

  /** The `increment_saves_count`/`decrement_saves_count` procedures: every
      row with the id gets `delta` added to its saves counter. */
  function AdjustSaves(books: seq<Book>, bookId: Id, delta: int): (r: seq<Book>)
    ensures |r| == |books|
  {
    seq(|books|, i requires 0 <= i < |books| =>
      if books[i].id == bookId then books[i].(savesCount := books[i].savesCount + delta) else books[i])
  }

  /** How much a toggle moved the book's counter, judged from its result. */
  function CounterDelta(res: ToggleResult, faults: ToggleFaults): int
  {
    if res.error.Some? || faults.counterFails then 0 else if res.saved then 1 else -1
  }

  /** `toggleSaveBook(bookId, userId)`. */
  function ToggleSave(s: Store, bookId: Id, userId: Id, faults: ToggleFaults): (r: (Store, ToggleResult))
    // a failure leaves everything as it was and reports "not saved"
    ensures r.1.error.Some? ==> r.0 == s && !r.1.saved
    // on success the pair's membership flips and the result reports the new membership
    ensures r.1.error.None? ==> (r.1.saved <==> SavedPair(userId, bookId) in r.0.saved)
    ensures r.1.error.None? ==> (r.1.saved <==> SavedPair(userId, bookId) !in s.saved)
    // it fails exactly when a write fails or a failed lookup hid an existing pair
    ensures r.1.error.Some? <==> faults.writeFails || (faults.lookupFails && SavedPair(userId, bookId) in s.saved)
    ensures faults.writeFails ==> r.1 == ToggleResult(false, Some(BackendError))
    // the hidden pair is inserted again, which the one-row-per-pair rule rejects
    ensures faults.lookupFails && !faults.writeFails && SavedPair(userId, bookId) in s.saved ==>
      r.1 == ToggleResult(false, Some(UniqueViolation))
    // no other pair changes
    ensures r.0.saved - {SavedPair(userId, bookId)} == s.saved - {SavedPair(userId, bookId)}
    ensures r.0.images == s.images && r.0.conditions == s.conditions
    // only the saves counter of this book's rows moves, by +1 or -1 unless the counter call failed
    ensures |r.0.books| == |s.books|
    ensures forall i :: 0 <= i < |s.books| && s.books[i].id != bookId ==> r.0.books[i] == s.books[i]
    ensures forall i :: 0 <= i < |s.books| && s.books[i].id == bookId ==>
      r.0.books[i] == s.books[i].(savesCount := s.books[i].savesCount + CounterDelta(r.1, faults))
  {
    var pair := SavedPair(userId, bookId);
    var existing := !faults.lookupFails && pair in s.saved;
    if existing then
      if faults.writeFails then (s, ToggleResult(false, Some(BackendError)))
      else
        var s1 := s.(saved := s.saved - {pair});
        var s2 := if faults.counterFails then s1 else s1.(books := AdjustSaves(s.books, bookId, -1));
        (s2, ToggleResult(false, None))
    else if faults.writeFails then (s, ToggleResult(false, Some(BackendError)))
    else if pair in s.saved then (s, ToggleResult(false, Some(UniqueViolation)))
    else
      var s1 := s.(saved := s.saved + {pair});
      var s2 := if faults.counterFails then s1 else s1.(books := AdjustSaves(s.books, bookId, 1));
      (s2, ToggleResult(true, None))
  }

  /** Two fault-free toggles of the same pair restore both the membership and
      the counter, and report opposite states. */
  lemma ToggleTwiceRestores(s: Store, bookId: Id, userId: Id)
    ensures var r1 := ToggleSave(s, bookId, userId, NoToggleFaults);
            var r2 := ToggleSave(r1.0, bookId, userId, NoToggleFaults);
            r2.0 == s && r1.1.saved != r2.1.saved
  {
    var r1 := ToggleSave(s, bookId, userId, NoToggleFaults);
    var r2 := ToggleSave(r1.0, bookId, userId, NoToggleFaults);
    var pair := SavedPair(userId, bookId);
    assert r2.0.saved == s.saved by {
      if pair in s.saved {
        assert r1.0.saved == s.saved - {pair};
      } else {
        assert r1.0.saved == s.saved + {pair};
      }
    }
    assert r2.0.books == s.books;
  }

  /** The pairs that record a save of `bookId`. */
  function SaversOf(saved: set<SavedPair>, bookId: Id): set<SavedPair>
  {
    set p | p in saved && p.bookId == bookId
  }

  /** Every row's saves counter equals the number of users who saved it. */
  ghost predicate CountersExact(s: Store)
  {
    forall i :: 0 <= i < |s.books| ==> s.books[i].savesCount == |SaversOf(s.saved, s.books[i].id)|
  }

  lemma SaversAfterInsert(saved: set<SavedPair>, pair: SavedPair, bookId: Id)
    requires pair !in saved
    ensures pair.bookId == bookId ==> |SaversOf(saved + {pair}, bookId)| == |SaversOf(saved, bookId)| + 1
    ensures pair.bookId != bookId ==> SaversOf(saved + {pair}, bookId) == SaversOf(saved, bookId)
  {
    if pair.bookId == bookId {
      assert SaversOf(saved + {pair}, bookId) == SaversOf(saved, bookId) + {pair};
    }
  }

  lemma SaversAfterDelete(saved: set<SavedPair>, pair: SavedPair, bookId: Id)
    requires pair in saved
    ensures pair.bookId == bookId ==> |SaversOf(saved - {pair}, bookId)| == |SaversOf(saved, bookId)| - 1
    ensures pair.bookId != bookId ==> SaversOf(saved - {pair}, bookId) == SaversOf(saved, bookId)
  {
    if pair.bookId == bookId {
      assert SaversOf(saved, bookId) == SaversOf(saved - {pair}, bookId) + {pair};
    }
  }

  /** When the counter procedure succeeds, a toggle keeps every counter equal
      to the true number of saves. */
  lemma ToggleKeepsCountersExact(s: Store, bookId: Id, userId: Id, faults: ToggleFaults)
    requires CountersExact(s)
    requires !faults.counterFails
    ensures CountersExact(ToggleSave(s, bookId, userId, faults).0)
  {
    var r := ToggleSave(s, bookId, userId, faults);
    var pair := SavedPair(userId, bookId);
    if r.1.error.None? {
      forall i | 0 <= i < |r.0.books|
        ensures r.0.books[i].savesCount == |SaversOf(r.0.saved, r.0.books[i].id)|
      {
        var id := s.books[i].id;
        assert r.0.books[i].id == id;
        if pair in s.saved {
          assert r.0.saved == s.saved - {pair};
          SaversAfterDelete(s.saved, pair, id);
        } else {
          assert r.0.saved == s.saved + {pair};
          SaversAfterInsert(s.saved, pair, id);
        }
      }
    }
  }

  /** A failed counter call is ignored: the toggle still succeeds, and the
      book's counter no longer equals its number of savers. */
  lemma CounterFailureDrifts(s: Store, bookId: Id, userId: Id, i: int)
    requires CountersExact(s)
    requires 0 <= i < |s.books| && s.books[i].id == bookId
    ensures var r := ToggleSave(s, bookId, userId, ToggleFaults(false, false, true));
            r.1.error.None? && !CountersExact(r.0)
  {
    var r := ToggleSave(s, bookId, userId, ToggleFaults(false, false, true));
    var pair := SavedPair(userId, bookId);
    assert r.0.books[i] == s.books[i];
    if pair in s.saved {
      assert r.0.saved == s.saved - {pair};
      SaversAfterDelete(s.saved, pair, bookId);
    } else {
      assert r.0.saved == s.saved + {pair};
      SaversAfterInsert(s.saved, pair, bookId);
    }
  }

  /** A caller that reads only `saved` cannot tell a failed toggle of a saved
      book from a successful unsave. */
  lemma FailureLooksLikeUnsave(s: Store, bookId: Id, userId: Id)
    requires SavedPair(userId, bookId) in s.saved
    ensures ToggleSave(s, bookId, userId, ToggleFaults(false, true, false)).1.saved
         == ToggleSave(s, bookId, userId, NoToggleFaults).1.saved
  {
  }

  // ---------------------------------------------------------------------------
  // Single-book fetch

  /** Which of the fetch's backend calls fail. The saved-state lookup and the
      view-count update report nothing to the caller. */
  datatype FetchFaults = FetchFaults(fetchFails: bool, savedLookupFails: bool, viewUpdateFails: bool)

  const NoFetchFaults := FetchFaults(false, false, false)

  datatype FetchResult = FetchResult(data: Option<BookWithDetails>, error: Option<ApiError>)

  function RowsWithId(books: seq<Book>, id: Id): (r: seq<Book>)
    ensures forall b :: b in r <==> b in books && b.id == id
  {
    Seqs.Filter(books, (b: Book) => b.id == id)
  }

  /** The joined `book_images` rows of a book, in table order. */
  function ImagesOf(images: seq<BookImage>, bookId: Id): (r: seq<BookImage>)
    ensures forall img :: img in r <==> img in images && img.bookId == bookId
  {
    Seqs.Filter(images, (img: BookImage) => img.bookId == bookId)
  }

  /** The joined condition's name: the condition row whose id the book names. */
  function ConditionName(conditions: seq<BookCondition>, conditionId: Option<Id>): (r: Option<string>)
    ensures r.Some? ==> conditionId.Some? && exists c :: c in conditions && c.id == conditionId.value && c.name == r.value
    ensures r.None? ==> conditionId.None? || forall c :: c in conditions ==> c.id != conditionId.value
  {
    if conditionId.None? || |conditions| == 0 then None
    else if conditions[0].id == conditionId.value then Some(conditions[0].name)
    else ConditionName(conditions[1..], conditionId)
  }

  /** Sets the views counter of every row with the id. */
  function SetViews(books: seq<Book>, id: Id, views: int): (r: seq<Book>)
    ensures |r| == |books|
  {
    seq(|books|, i requires 0 <= i < |books| =>
      if books[i].id == id then books[i].(viewsCount := views) else books[i])
  }

  /** `getBookById(id, userId)`. The view counter is written as the fetched
      value plus one; the returned row still carries the fetched value. */
  function GetBookById(s: Store, id: Id, userId: Option<Id>, faults: FetchFaults): (r: (Store, FetchResult))
    ensures r.1.data.None? <==> r.1.error.Some?
    ensures r.1.data.None? ==> r.0 == s
    ensures faults.fetchFails ==> r.1 == FetchResult(None, Some(BackendError))
    ensures !faults.fetchFails && (forall b :: b in s.books ==> b.id != id) ==> r.1 == FetchResult(None, Some(BookNotFound))
    // `maybeSingle`: more than one row with the id is an error, exactly one is a success
    ensures !faults.fetchFails && |RowsWithId(s.books, id)| > 1 ==> r.1 == FetchResult(None, Some(NotSingleRow))
    ensures !faults.fetchFails && |RowsWithId(s.books, id)| == 1 ==> r.1.error.None?
    ensures r.1.data.Some? ==> r.1.data.value.book in s.books && r.1.data.value.book.id == id
    ensures r.1.data.Some? ==> r.1.data.value.images == Some(ImagesOf(s.images, id))
    ensures r.1.data.Some? ==> r.1.data.value.conditionName == ConditionName(s.conditions, r.1.data.value.book.conditionId)
    // `is_saved` is true iff a signed-in user's pair exists (and the lookup worked)
    ensures r.1.data.Some? ==>
      && r.1.data.value.isSaved.Some?
      && (r.1.data.value.isSaved.value <==>
            userId.Some? && userId.value != "" && !faults.savedLookupFails && SavedPair(userId.value, id) in s.saved)
    // the view counter of the fetched row goes up by one; nothing else changes
    ensures r.0.saved == s.saved && r.0.images == s.images && r.0.conditions == s.conditions
    ensures |r.0.books| == |s.books|
    ensures forall i :: 0 <= i < |s.books| && s.books[i].id != id ==> r.0.books[i] == s.books[i]
    ensures forall i :: 0 <= i < |s.books| && s.books[i].id == id && r.1.data.Some? && !faults.viewUpdateFails ==>
      r.0.books[i] == s.books[i].(viewsCount := s.books[i].viewsCount + 1)
    ensures faults.viewUpdateFails ==> r.0 == s
  {
    if faults.fetchFails then (s, FetchResult(None, Some(BackendError)))
    else
      var rows := RowsWithId(s.books, id);
      if |rows| == 0 then (s, FetchResult(None, Some(BookNotFound)))
      else if |rows| > 1 then
        assert rows[0] in rows;
        (s, FetchResult(None, Some(NotSingleRow)))
      else
        var b := rows[0];
        assert b in rows;
        assert forall i :: 0 <= i < |s.books| && s.books[i].id == id ==> s.books[i] == b by {
          forall i | 0 <= i < |s.books| && s.books[i].id == id ensures s.books[i] == b {
            assert s.books[i] in rows;
          }
        }
        var isSaved := userId.Some? && userId.value != "" && !faults.savedLookupFails
                       && SavedPair(userId.value, id) in s.saved;
        var s1 := if faults.viewUpdateFails then s else s.(books := SetViews(s.books, id, b.viewsCount + 1));
        var details := BookWithDetails(b, Some(ImagesOf(s.images, id)), ConditionName(s.conditions, b.conditionId), Some(isSaved));
        (s1, FetchResult(Some(details), None))
  }

  /** One fault-free fetch of a book with a single row succeeds, counts one
      view on that row, and leaves it the only row with the id. */
  lemma FetchOnce(s: Store, id: Id, userId: Option<Id>, i: int)
    requires 0 <= i < |s.books| && s.books[i].id == id
    requires |RowsWithId(s.books, id)| == 1
    ensures var r := GetBookById(s, id, userId, NoFetchFaults);
            && r.1.error.None?
            && |r.0.books| == |s.books|
            && r.0.books[i].id == id
            && r.0.books[i].viewsCount == s.books[i].viewsCount + 1
            && |RowsWithId(r.0.books, id)| == 1
  {
    var r := GetBookById(s, id, userId, NoFetchFaults);
    // the fetch changed no id, so the rows with the id are where they were
    assert forall j :: 0 <= j < |s.books| ==> r.0.books[j].id == s.books[j].id;
    Seqs.FilterLengthByMask(s.books, r.0.books, (b: Book) => b.id == id);
  }

  /** Fetching a book twice raises its view counter by exactly two: the fetch
      is not deduplicated. */
  lemma TwoFetchesAddTwoViews(s: Store, id: Id, userId: Option<Id>, i: int)
    requires 0 <= i < |s.books| && s.books[i].id == id
    requires |RowsWithId(s.books, id)| == 1
    ensures var r1 := GetBookById(s, id, userId, NoFetchFaults);
            var r2 := GetBookById(r1.0, id, userId, NoFetchFaults);
            r2.1.error.None? && r2.0.books[i].viewsCount == s.books[i].viewsCount + 2
  {
    var r1 := GetBookById(s, id, userId, NoFetchFaults);
    FetchOnce(s, id, userId, i);
    FetchOnce(r1.0, id, userId, i);
  }

  // ---------------------------------------------------------------------------
  // Seller-scoped writes

  /** The columns an update may set (`updated_at` is the server's clock and is
      not modelled). `None` leaves a column as it is. */
  datatype BookPatch = BookPatch(
    title: Option<string>,
    description: Option<Option<string>>,
    price: Option<Option<real>>,
    status: Option<Status>,
    coverImageUrl: Option<Option<string>>
  )

  function ApplyPatch(b: Book, p: BookPatch): Book
  {
    b.(title := p.title.GetOr(b.title),
       description := p.description.GetOr(b.description),
       price := p.price.GetOr(b.price),
       status := p.status.GetOr(b.status),
       coverImageUrl := p.coverImageUrl.GetOr(b.coverImageUrl))
  }

  /** The row filter of update and delete: `.eq('id', id).eq('seller_id', userId)`. */
  predicate OwnedRow(b: Book, id: Id, userId: Id)
  {
    b.id == id && b.sellerId == userId
  }

  /** The rows update and delete address, in table order. */
  function OwnedRows(books: seq<Book>, id: Id, userId: Id): (r: seq<Book>)
    ensures forall b :: b in r <==> b in books && OwnedRow(b, id, userId)
  {
    Seqs.Filter(books, (b: Book) => OwnedRow(b, id, userId))
  }

  datatype RowResult = RowResult(data: Option<Book>, error: Option<ApiError>)

  /** `updateBook(id, updates, userId)`. `.single()` demands exactly one
      affected row; otherwise the call fails and nothing is written. */
  function UpdateBook(s: Store, id: Id, patch: BookPatch, userId: Id, backendFails: bool): (r: (Store, RowResult))
    ensures r.1.error.Some? <==> r.1.data.None?
    ensures r.1.error.Some? ==> r.0 == s
    ensures r.1.data.Some? ==> r.1.data.value.id == id && r.1.data.value.sellerId == userId
    ensures r.1.data.Some? ==> r.1.data.value in r.0.books
    // the outcome: a backend error, a refusal unless exactly one row is addressed, else that row patched
    ensures backendFails ==> r == (s, RowResult(None, Some(BackendError)))
    ensures !backendFails && |OwnedRows(s.books, id, userId)| != 1 ==> r == (s, RowResult(None, Some(NotSingleRow)))
    ensures !backendFails && |OwnedRows(s.books, id, userId)| == 1 ==>
      r.1 == RowResult(Some(ApplyPatch(OwnedRows(s.books, id, userId)[0], patch)), None)
    // a caller who owns no row with that id is refused and changes nothing
    ensures (forall b :: b in s.books ==> !OwnedRow(b, id, userId)) ==> r.1.error.Some?
    ensures r.0.saved == s.saved && r.0.images == s.images && r.0.conditions == s.conditions
    ensures |r.0.books| == |s.books|
    ensures forall i :: 0 <= i < |s.books| && !OwnedRow(s.books[i], id, userId) ==> r.0.books[i] == s.books[i]
    ensures forall i :: 0 <= i < |s.books| && OwnedRow(s.books[i], id, userId) && r.1.error.None? ==>
      r.0.books[i] == ApplyPatch(s.books[i], patch)
  {
    var owned := OwnedRows(s.books, id, userId);
    if backendFails then (s, RowResult(None, Some(BackendError)))
    else if |owned| != 1 then (s, RowResult(None, Some(NotSingleRow)))
    else
      assert owned[0] in owned;
      var books := seq(|s.books|, i requires 0 <= i < |s.books| =>
        if OwnedRow(s.books[i], id, userId) then ApplyPatch(s.books[i], patch) else s.books[i]);
      var updated := ApplyPatch(owned[0], patch);
      assert updated in books by {
        var k :| 0 <= k < |s.books| && s.books[k] == owned[0];
        assert books[k] == updated;
      }
      (s.(books := books), RowResult(Some(updated), None))
  }

  /** `deleteBook(id, userId)`: removes the caller's rows with that id. A
      delete that matches nothing is not an error. */
  function DeleteBook(s: Store, id: Id, userId: Id, backendFails: bool): (r: (Store, Option<ApiError>))
    ensures backendFails ==> r == (s, Some(BackendError))
    ensures !backendFails ==> r.1.None?
    ensures !backendFails ==> forall b :: b in r.0.books <==> b in s.books && !OwnedRow(b, id, userId)
    ensures forall b: Book {:trigger multiset(r.0.books)[b]} :: !OwnedRow(b, id, userId) ==>
      multiset(r.0.books)[b] == multiset(s.books)[b]
    ensures r.0.saved == s.saved && r.0.images == s.images && r.0.conditions == s.conditions
  {
    if backendFails then (s, Some(BackendError))
    else (s.(books := Seqs.Filter(s.books, (b: Book) => !OwnedRow(b, id, userId))), None)
  }

  /** Rows of other sellers survive every delete. */
  lemma DeleteSparesOtherSellers(s: Store, id: Id, userId: Id, backendFails: bool, b: Book)
    requires b in s.books && b.sellerId != userId
    ensures b in DeleteBook(s, id, userId, backendFails).0.books
  {
  }

  /** `createBook(bookData, userId)`: inserts the row with the caller as seller. */
  function CreateBook(s: Store, row: Book, userId: Id, backendFails: bool): (r: (Store, RowResult))
    ensures r.1.error.Some? <==> r.1.data.None?
    ensures backendFails ==> r == (s, RowResult(None, Some(BackendError)))
    ensures !backendFails ==> r.1.data.Some? && r.1.data.value.sellerId == userId
    ensures !backendFails ==> r.0.books == s.books + [r.1.data.value]
    ensures !backendFails ==> r.1.data.value.(sellerId := row.sellerId) == row
    ensures r.0.saved == s.saved && r.0.images == s.images && r.0.conditions == s.conditions
  {
    if backendFails then (s, RowResult(None, Some(BackendError)))
    else
      var inserted := row.(sellerId := userId);
      (s.(books := s.books + [inserted]), RowResult(Some(inserted), None))
  }

  // ---------------------------------------------------------------------------
  // Listings of one user

  /** `getUserBooks(userId)`: the caller's rows of any status, newest first. */
  function GetUserBooks(s: Store, userId: Id, backendFails: bool): (r: seq<Book>)
    ensures backendFails ==> r == []
    ensures BookQuery.NewestFirst(r)
    ensures forall b: Book {:trigger multiset(r)[b]} :: !backendFails ==>
      multiset(r)[b] == (if b.sellerId == userId then multiset(s.books)[b] else 0)
  {
    if backendFails then []
    else BookQuery.SortNewestFirst(Seqs.Filter(s.books, (b: Book) => b.sellerId == userId))
  }

  /** The `books:book_id(...)` embedding of one saved row: the book with that
      id (the first, should several rows share it) with its images and
      condition name, or null when no row has the id. */
  function JoinBook(s: Store, bookId: Id): (r: Option<BookWithDetails>)
    ensures r.Some? <==> exists b :: b in s.books && b.id == bookId
    ensures r.Some? ==> r.value.book in s.books && r.value.book.id == bookId
    ensures r.Some? ==> r.value.images == Some(ImagesOf(s.images, bookId))
    ensures r.Some? ==> r.value.conditionName == ConditionName(s.conditions, r.value.book.conditionId)
  {
    var rows := RowsWithId(s.books, bookId);
    if |rows| == 0 then None
    else
      assert rows[0] in rows;
      var b := rows[0];
      Some(BookWithDetails(b, Some(ImagesOf(s.images, bookId)), ConditionName(s.conditions, b.conditionId), None))
  }

  /** Some row carries the id, so a saved row with it joins. */
  predicate HasBook(books: seq<Book>, id: Id)
  {
    exists b :: b in books && b.id == id
  }

  /** The saved rows whose book joins, in their own order. */
  function JoinedPairs(books: seq<Book>, pairs: seq<SavedPair>): (r: seq<SavedPair>)
    ensures forall p :: p in r <==> p in pairs && HasBook(books, p.bookId)
  {
    Seqs.Filter(pairs, (p: SavedPair) => HasBook(books, p.bookId))
  }

  /** The `books:book_id(...)` embedding of every saved row, null where the
      book does not join. */
  function JoinAll(s: Store, pairs: seq<SavedPair>): (r: seq<Option<BookWithDetails>>)
    ensures |r| == |pairs|
    ensures forall i :: 0 <= i < |pairs| ==> r[i] == JoinBook(s, pairs[i].bookId)
  {
    if |pairs| == 0 then []
    else [JoinBook(s, pairs[0].bookId)] + JoinAll(s, pairs[1..])
  }

  /** One step of the join: the first saved row, then the rest. */
  lemma JoinStep(s: Store, pairs: seq<SavedPair>)
    requires |pairs| > 0
    ensures var h := JoinBook(s, pairs[0].bookId);
            Present(JoinAll(s, pairs)) == (if h.Some? then [h.value] else []) + Present(JoinAll(s, pairs[1..]))
    ensures JoinedPairs(s.books, pairs)
         == (if HasBook(s.books, pairs[0].bookId) then [pairs[0]] else []) + JoinedPairs(s.books, pairs[1..])
  {
    var h := JoinBook(s, pairs[0].bookId);
    var rest := JoinAll(s, pairs[1..]);
    assert JoinAll(s, pairs) == [h] + rest;
    assert ([h] + rest)[1..] == rest;
    assert pairs == [pairs[0]] + pairs[1..];
  }

  /** Joining each saved row and dropping the missing joins gives one entry
      per joined row, in the rows' order. */
  lemma {:induction false} JoinKeepsOrder(s: Store, pairs: seq<SavedPair>)
    ensures var r := Present(JoinAll(s, pairs));
            var kept := JoinedPairs(s.books, pairs);
            |r| == |kept| && forall k :: 0 <= k < |r| ==> JoinBook(s, kept[k].bookId) == Some(r[k])
    decreases |pairs|
  {
    if |pairs| > 0 {
      var h := JoinBook(s, pairs[0].bookId);
      var r := Present(JoinAll(s, pairs));
      var all := JoinedPairs(s.books, pairs);
      var tail := Present(JoinAll(s, pairs[1..]));
      var kept := JoinedPairs(s.books, pairs[1..]);
      JoinStep(s, pairs);
      JoinKeepsOrder(s, pairs[1..]);
      if h.Some? {
        assert HasBook(s.books, pairs[0].bookId);
        assert r == [h.value] + tail && all == [pairs[0]] + kept;
        forall k | 0 <= k < |r| ensures JoinBook(s, all[k].bookId) == Some(r[k]) {
          if k > 0 {
            assert r[k] == tail[k - 1] && all[k] == kept[k - 1];
          }
        }
      } else {
        assert !HasBook(s.books, pairs[0].bookId);
      }
    }
  }

  /** Every book the join lists is a stored row the user has saved. */
  lemma ListedAreSaved(s: Store, userId: Id, pairs: seq<SavedPair>)
    requires forall p :: p in pairs <==> p in s.saved && p.userId == userId
    ensures forall d: BookWithDetails :: d in Present(JoinAll(s, pairs)) ==> d.book in s.books && SavedPair(userId, d.book.id) in s.saved
  {
    var joined := JoinAll(s, pairs);
    forall d: BookWithDetails | d in Present(joined) ensures d.book in s.books && SavedPair(userId, d.book.id) in s.saved {
      var i :| 0 <= i < |joined| && joined[i] == Some(d);
      assert pairs[i] in pairs;
      assert pairs[i] == SavedPair(userId, d.book.id);
    }
  }

  /** Every saved row whose book exists is listed by the join. */
  lemma SavedAreListed(s: Store, userId: Id, pairs: seq<SavedPair>)
    requires forall p :: p in pairs <==> p in s.saved && p.userId == userId
    ensures forall p :: p in s.saved && p.userId == userId && HasBook(s.books, p.bookId) ==>
              exists d: BookWithDetails :: d in Present(JoinAll(s, pairs)) && d.book.id == p.bookId
  {
    var joined := JoinAll(s, pairs);
    forall p | p in s.saved && p.userId == userId && HasBook(s.books, p.bookId)
      ensures exists d: BookWithDetails :: d in Present(joined) && d.book.id == p.bookId
    {
      var i :| 0 <= i < |pairs| && pairs[i] == p;
      assert joined[i].Some?;
      assert Some(joined[i].value) in joined;
    }
  }

  /** The join lists one entry per saved row whose book joins, in the rows'
      order, each being that row's join. */
  lemma ListedInOrder(s: Store, pairs: seq<SavedPair>)
    ensures var r := Present(JoinAll(s, pairs));
            && |r| == |JoinedPairs(s.books, pairs)|
            && forall k :: 0 <= k < |r| ==>
                 r[k].book.id == JoinedPairs(s.books, pairs)[k].bookId && JoinBook(s, r[k].book.id) == Some(r[k])
  {
    var r := Present(JoinAll(s, pairs));
    var kept := JoinedPairs(s.books, pairs);
    JoinKeepsOrder(s, pairs);
    forall k | 0 <= k < |r|
      ensures r[k].book.id == kept[k].bookId && JoinBook(s, r[k].book.id) == Some(r[k])
    {
      assert JoinBook(s, kept[k].bookId) == Some(r[k]);
    }
  }

  /** `getSavedBooks(userId)`. `pairs` is the user's `saved_books` rows in the
      order the backend returns them (`saved_at` descending, a clock the model
      does not keep); each is joined to its book, and the ones whose book did
      not join are dropped with `.filter(Boolean)`. */
  function GetSavedBooks(s: Store, userId: Id, pairs: seq<SavedPair>, backendFails: bool): (r: seq<BookWithDetails>)
    requires forall p :: p in pairs <==> p in s.saved && p.userId == userId
    ensures backendFails ==> r == []
    ensures !backendFails ==> |r| <= |pairs|
    // every book listed is a stored row the user has saved
    ensures forall d :: d in r ==> d.book in s.books && SavedPair(userId, d.book.id) in s.saved
    // and every saved pair whose book exists is listed
    ensures !backendFails ==>
      forall p :: p in s.saved && p.userId == userId && HasBook(s.books, p.bookId) ==>
        exists d :: d in r && d.book.id == p.bookId
    // one entry per saved row whose book joins, in the rows' (`saved_at`) order
    ensures !backendFails ==>
      && |r| == |JoinedPairs(s.books, pairs)|
      && forall k :: 0 <= k < |r| ==>
           r[k].book.id == JoinedPairs(s.books, pairs)[k].bookId && JoinBook(s, r[k].book.id) == Some(r[k])
  {
    if backendFails then []
    else
      ListedAreSaved(s, userId, pairs);
      SavedAreListed(s, userId, pairs);
      ListedInOrder(s, pairs);
      Present(JoinAll(s, pairs))
  }

  /** A book the user has just saved by a toggle shows up in their saved list. */
  lemma SavedByToggleIsListed(s: Store, bookId: Id, userId: Id, pairs: seq<SavedPair>, i: int)
    requires 0 <= i < |s.books| && s.books[i].id == bookId
    requires SavedPair(userId, bookId) !in s.saved
    requires forall p :: p in pairs <==> p in ToggleSave(s, bookId, userId, NoToggleFaults).0.saved && p.userId == userId
    ensures var s1 := ToggleSave(s, bookId, userId, NoToggleFaults).0;
            exists d :: d in GetSavedBooks(s1, userId, pairs, false) && d.book.id == bookId
  {
    var res := ToggleSave(s, bookId, userId, NoToggleFaults);
    var s1 := res.0;
    var pair := SavedPair(userId, bookId);
    assert res.1.error.None? && res.1.saved;
    assert pair in s1.saved;
    assert s1.books[i] in s1.books && s1.books[i].id == bookId;
    var listed := GetSavedBooks(s1, userId, pairs, false);
    assert pair in s1.saved && pair.userId == userId && (exists b :: b in s1.books && b.id == pair.bookId);
  }

  /** The carried values of the present entries, in order. */
  function Present<T(!new)>(s: seq<Option<T>>): (r: seq<T>)
    ensures |r| <= |s|
    ensures forall x :: x in r <==> Some(x) in s
  {
    if |s| == 0 then []
    else
      assert s == [s[0]] + s[1..];
      (if s[0].Some? then [s[0].value] else []) + Present(s[1..])
  }

  /** Dropping missing entries keeps the order of what remains. */
  lemma {:induction false} PresentAppend<T(!new)>(a: seq<Option<T>>, b: seq<Option<T>>)
    ensures Present(a + b) == Present(a) + Present(b)
    decreases |a|
  {
    if |a| == 0 {
      assert a + b == b;
    } else {
      assert (a + b)[1..] == a[1..] + b;
      PresentAppend(a[1..], b);
    }
  }
}

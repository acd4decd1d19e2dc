/** The book detail page: loading the book with its saved state, the
    gallery's fallback list, the heart toggle and the seller/visitor panels. */
module BookDetail {
  import opened Wrappers
  import opened Types
  import BookStore

  /** The image URLs the gallery shows: the joined images when there are any,
      otherwise the cover if it is set, otherwise nothing. */
  function Gallery(d: BookWithDetails): (r: seq<string>)
    ensures d.images.Some? && |d.images.value| > 0 ==>
      |r| == |d.images.value| && forall i :: 0 <= i < |r| ==> r[i] == d.images.value[i].imageUrl
    ensures !(d.images.Some? && |d.images.value| > 0) && Truthy(d.book.coverImageUrl) ==>
      r == [d.book.coverImageUrl.value]
    ensures !(d.images.Some? && |d.images.value| > 0) && !Truthy(d.book.coverImageUrl) ==> r == []
  {
    if d.images.Some? && |d.images.value| > 0 then
      seq(|d.images.value|, i requires 0 <= i < |d.images.value| => d.images.value[i].imageUrl)
    else if Truthy(d.book.coverImageUrl) then [d.book.coverImageUrl.value]
    else []
  }

  /** The placeholder icon replaces the gallery when it has nothing to show. */
  predicate ShowsPlaceholder(d: BookWithDetails)
  {
    |Gallery(d)| == 0
  }

  /** The placeholder appears exactly when there is neither a joined image nor a cover. */
  lemma PlaceholderIffNoPicture(d: BookWithDetails)
    ensures ShowsPlaceholder(d) <==> (d.images.None? || |d.images.value| == 0) && !Truthy(d.book.coverImageUrl)
  {
  }

  /** What the page shows once the load finishes. */
  datatype DetailPage =
    | Loading                                        // no id: nothing is fetched
    | RedirectToBrowse                               // the fetch failed or found nothing
    | Showing(details: BookWithDetails, isSaved: bool)

  /** `loadBook`: fetches the book and starts `isSaved` from `is_saved || false`. */
  function LoadBook(s: BookStore.Store, id: Option<Id>, user: Option<Id>, faults: BookStore.FetchFaults)
    : (r: (BookStore.Store, DetailPage))
    ensures !Truthy(id) ==> r == (s, Loading)
    ensures r.1.Showing? ==> Truthy(id) && r.1.details.book.id == id.value && r.1.details.book in s.books
    // the gallery and the condition label come from the joined tables
    ensures r.1.Showing? ==> r.1.details.images == Some(BookStore.ImagesOf(s.images, id.value))
    ensures r.1.Showing? ==> r.1.details.conditionName == BookStore.ConditionName(s.conditions, r.1.details.book.conditionId)
    // the heart starts filled exactly when the signed-in user has saved the book
    ensures r.1.Showing? ==>
      (r.1.isSaved <==> user.Some? && user.value != "" && !faults.savedLookupFails && SavedPair(user.value, id.value) in s.saved)
    ensures Truthy(id) && !faults.fetchFails && (forall b :: b in s.books ==> b.id != id.value) ==> r == (s, RedirectToBrowse)
    // a book with exactly one row is shown, and a failed or ambiguous fetch redirects without writing
    ensures Truthy(id) && !faults.fetchFails && |BookStore.RowsWithId(s.books, id.value)| == 1 ==> r.1.Showing?
    ensures Truthy(id) && (faults.fetchFails || |BookStore.RowsWithId(s.books, id.value)| > 1) ==> r == (s, RedirectToBrowse)
    ensures r.1.RedirectToBrowse? ==> r.0 == s
    // showing the book counts one view on its row, unless that write fails; nothing else changes
    ensures r.0.saved == s.saved && r.0.images == s.images && r.0.conditions == s.conditions
    ensures |r.0.books| == |s.books|
    ensures forall i :: 0 <= i < |s.books| && (s.books[i].id != id.GetOr("") || !r.1.Showing? || faults.viewUpdateFails) ==>
      r.0.books[i] == s.books[i]
    ensures forall i :: 0 <= i < |s.books| && r.1.Showing? && s.books[i].id == id.value && !faults.viewUpdateFails ==>
      r.0.books[i] == s.books[i].(viewsCount := s.books[i].viewsCount + 1)
  {
    if !Truthy(id) then (s, Loading)
    else
      var res := BookStore.GetBookById(s, id.value, user, faults);
      if res.1.error.Some? || res.1.data.None? then (res.0, RedirectToBrowse)
      else (res.0, Showing(res.1.data.value, res.1.data.value.isSaved.GetOr(false)))
  }

  /** `handleToggleSave`: needs a signed-in user and an id; `isSaved` becomes
      whatever the toggle reports. */
  function ToggleSave(s: BookStore.Store, user: Option<Id>, id: Option<Id>, isSaved: bool,
                      faults: BookStore.ToggleFaults): (r: (BookStore.Store, bool))
    ensures user.None? || !Truthy(id) ==> r == (s, isSaved)
    // otherwise the store is the toggle's, and the heart takes the `saved` it reports
    ensures user.Some? && Truthy(id) ==>
      && r.0 == BookStore.ToggleSave(s, id.value, user.value, faults).0
      && r.1 == BookStore.ToggleSave(s, id.value, user.value, faults).1.saved
    // after a toggle that went through, the heart shows the stored membership
    ensures user.Some? && Truthy(id) && !faults.writeFails && (!faults.lookupFails || SavedPair(user.value, id.value) !in s.saved) ==>
      && (r.1 <==> SavedPair(user.value, id.value) in r.0.saved)
      && (r.1 <==> SavedPair(user.value, id.value) !in s.saved)
    // after a failed toggle (a failed write, or a re-insert of a pair the failed lookup hid)
    // the heart shows "not saved" whatever the store holds
    ensures user.Some? && Truthy(id) && (faults.writeFails || (faults.lookupFails && SavedPair(user.value, id.value) in s.saved)) ==>
      !r.1 && r.0 == s
  {
    if user.None? || !Truthy(id) then (s, isSaved)
    else
      var res := BookStore.ToggleSave(s, id.value, user.value, faults);
      (res.0, res.1.saved)
  }

  /** `user?.id !== book.seller_id`: the contact buttons. */
  predicate ShowsContact(user: Option<Id>, sellerId: Id)
  {
    user.None? || user.value != sellerId
  }

  /** `user?.id === book.seller_id`: the edit link. */
  predicate ShowsEdit(user: Option<Id>, sellerId: Id)
  {
    user.Some? && user.value == sellerId
  }

  /** Exactly one panel is shown: the seller gets the edit link, everyone
      else, signed out included, gets the contact panel. */
  lemma ExactlyOnePanel(user: Option<Id>, sellerId: Id)
    ensures ShowsContact(user, sellerId) != ShowsEdit(user, sellerId)
    ensures ShowsEdit(user, sellerId) <==> user == Some(sellerId)
  {
  }
}

/** The seller dashboard: deleting a listing and keeping the local list in
    step, and the status badge. */
module Dashboard {
  import opened Wrappers
  import opened Types
  import Seqs
  import BookStore

  /** The local list after a successful delete: every row with that id goes,
      the rest keep their order. */
  function WithoutId(list: seq<Book>, bookId: Id): (r: seq<Book>)
    ensures forall b :: b in r <==> b in list && b.id != bookId
    ensures forall b: Book {:trigger multiset(r)[b]} :: multiset(r)[b] == (if b.id != bookId then multiset(list)[b] else 0)
  {
    Seqs.Filter(list, (b: Book) => b.id != bookId)
  }

  /** Removing by id never reorders: it distributes over concatenation. */
  lemma WithoutIdKeepsOrder(a: seq<Book>, b: seq<Book>, bookId: Id)
    ensures WithoutId(a + b, bookId) == WithoutId(a, bookId) + WithoutId(b, bookId)
  {
    Seqs.FilterAppend(a, b, (x: Book) => x.id != bookId);
  }

  /** `handleDelete(bookId)`: with a user and a confirmed prompt the delete is
      issued; the local list changes only when it reports no error. */
  function HandleDelete(list: seq<Book>, s: BookStore.Store, user: Option<Id>, confirmed: bool, bookId: Id,
                        backendFails: bool): (r: (seq<Book>, BookStore.Store))
    ensures user.None? || !confirmed ==> r == (list, s)
    ensures user.Some? && confirmed && backendFails ==> r == (list, s)
    // the store is whatever the seller-scoped delete leaves; it touches only `books`
    ensures user.Some? && confirmed ==> r.1 == BookStore.DeleteBook(s, bookId, user.value, backendFails).0
    ensures r.1.saved == s.saved && r.1.images == s.images && r.1.conditions == s.conditions
    ensures user.Some? && confirmed && !backendFails ==>
      && r.0 == WithoutId(list, bookId)
      && (forall b :: b in r.1.books <==> b in s.books && !BookStore.OwnedRow(b, bookId, user.value))
  {
    if user.None? || !confirmed then (list, s)
    else
      var res := BookStore.DeleteBook(s, bookId, user.value, backendFails);
      if res.1.None? then (WithoutId(list, bookId), res.0) else (list, res.0)
  }

  /** One book's count on both sides of a successful delete. */
  lemma DeleteCountsAgree(list: seq<Book>, s: BookStore.Store, userId: Id, bookId: Id, b: Book)
    requires multiset(list) == multiset(BookStore.GetUserBooks(s, userId, false))
    ensures multiset(WithoutId(list, bookId))[b]
         == multiset(BookStore.GetUserBooks(BookStore.DeleteBook(s, bookId, userId, false).0, userId, false))[b]
  {
    var before := BookStore.GetUserBooks(s, userId, false);
    var after := BookStore.DeleteBook(s, bookId, userId, false).0;
    var mine := BookStore.GetUserBooks(after, userId, false);
    assert multiset(list)[b] == multiset(before)[b];
    assert multiset(before)[b] == (if b.sellerId == userId then multiset(s.books)[b] else 0);
    assert multiset(mine)[b] == (if b.sellerId == userId then multiset(after.books)[b] else 0);
    assert multiset(after.books)[b] == (if !BookStore.OwnedRow(b, bookId, userId) then multiset(s.books)[b] else 0);
  }

  /** If the local list holds the user's listings, it still does after a
      delete: the local removal and the server's seller-scoped delete agree. */
  lemma DeleteKeepsListInSync(list: seq<Book>, s: BookStore.Store, userId: Id, confirmed: bool, bookId: Id,
                              backendFails: bool)
    requires multiset(list) == multiset(BookStore.GetUserBooks(s, userId, false))
    ensures var r := HandleDelete(list, s, Some(userId), confirmed, bookId, backendFails);
            multiset(r.0) == multiset(BookStore.GetUserBooks(r.1, userId, false))
  {
    var r := HandleDelete(list, s, Some(userId), confirmed, bookId, backendFails);
    if confirmed && !backendFails {
      var after := BookStore.DeleteBook(s, bookId, userId, false).0;
      assert r.0 == WithoutId(list, bookId) && r.1 == after;
      forall b: Book ensures multiset(r.0)[b] == multiset(BookStore.GetUserBooks(after, userId, false))[b] {
        DeleteCountsAgree(list, s, userId, bookId, b);
      }
    }
  }

  datatype Badge = GreenBadge | GrayBadge | YellowBadge

  /** The status badge colour. */
  function StatusBadge(status: Status): (r: Badge)
    ensures r == GreenBadge <==> status == Available
    ensures r == GrayBadge <==> status == Sold
    ensures r == YellowBadge <==> status.Rented? || status.Reserved? || status.Deleted?
  {
    if status == Available then GreenBadge
    else if status == Sold then GrayBadge
    else YellowBadge
  }
}

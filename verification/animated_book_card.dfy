/** The animated listing card repeats the plain card's logic; here it is
    written out again and shown to agree with the plain card everywhere. */
module AnimatedBookCard {
  import opened Wrappers
  import opened Types
  import Text
  import BookStore
  import BookCard

  /** The animated card's own `getConditionColor`. */
  function ConditionColor(condition: Option<string>): (r: string)
    ensures r == BookCard.ConditionColor(condition)
  {
    match condition
    case None => "bg-gray-100 text-gray-800"
    case Some(name) =>
      var l := Text.Lower(name);
      if l == "new" then "bg-green-100 text-green-800"
      else if l == "like new" then "bg-blue-100 text-blue-800"
      else if l == "good" then "bg-yellow-100 text-yellow-800"
      else if l == "fair" then "bg-orange-100 text-orange-800"
      else if l == "poor" then "bg-red-100 text-red-800"
      else "bg-gray-100 text-gray-800"
  }

  /** The animated card's own initial heart and count. */
  function InitialCard(d: BookWithDetails): (r: BookCard.CardState)
    ensures r == BookCard.InitialCard(d)
  {
    BookCard.CardState(d.isSaved.GetOr(false), d.book.savesCount)
  }

  /** The animated card's own `handleToggleSave`. */
  function ToggleOnCard(s: BookStore.Store, user: Option<Id>, bookId: Id, st: BookCard.CardState,
                        faults: BookStore.ToggleFaults): (r: (BookStore.Store, BookCard.CardState))
    ensures r == BookCard.ToggleOnCard(s, user, bookId, st, faults)
  {
    if user.None? then (s, st)
    else
      var res := BookStore.ToggleSave(s, bookId, user.value, faults);
      (res.0, BookCard.CardState(res.1.saved, if res.1.saved then st.savesCount + 1 else st.savesCount - 1))
  }
}

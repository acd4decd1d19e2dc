/** The listing card: the condition badge colour and the heart button's
    local state. */
module BookCard {
  import opened Wrappers
  import opened Types
  import Text
  import BookStore

  const GreenClass := "bg-green-100 text-green-800"
  const BlueClass := "bg-blue-100 text-blue-800"
  const YellowClass := "bg-yellow-100 text-yellow-800"
  const OrangeClass := "bg-orange-100 text-orange-800"
  const RedClass := "bg-red-100 text-red-800"
  const GrayClass := "bg-gray-100 text-gray-800"

  /** The condition names the card knows, best first. */
  const KnownConditions: seq<string> := ["new", "like new", "good", "fair", "poor"]

  /** `getConditionColor(condition)`: matched on the lower-cased name. */
  function ConditionColor(condition: Option<string>): (r: string)
    ensures r == GrayClass <==> condition.None? || Text.Lower(condition.value) !in KnownConditions
    ensures condition.Some? && Text.Lower(condition.value) == "new" ==> r == GreenClass
    ensures condition.Some? && Text.Lower(condition.value) == "poor" ==> r == RedClass
  {
    match condition
    case None => GrayClass
    case Some(name) =>
      var l := Text.Lower(name);
      if l == "new" then GreenClass
      else if l == "like new" then BlueClass
      else if l == "good" then YellowClass
      else if l == "fair" then OrangeClass
      else if l == "poor" then RedClass
      else GrayClass
  }

  /** The lookup ignores case. */
  lemma ConditionColorIgnoresCase(name: string)
    ensures ConditionColor(Some(name)) == ConditionColor(Some(Text.Lower(name)))
  {
    Text.LowerIdempotent(name);
  }

  /** The five known names get five different classes, none of them gray. */
  lemma KnownConditionsDistinct(i: int, j: int)
    requires 0 <= i < j < |KnownConditions|
    ensures ConditionColor(Some(KnownConditions[i])) != ConditionColor(Some(KnownConditions[j]))
    ensures ConditionColor(Some(KnownConditions[i])) != GrayClass
  {
    KnownConditionColors();
  }

  /** The class each known name gets. */
  lemma KnownConditionColors()
    ensures ConditionColor(Some(KnownConditions[0])) == GreenClass
    ensures ConditionColor(Some(KnownConditions[1])) == BlueClass
    ensures ConditionColor(Some(KnownConditions[2])) == YellowClass
    ensures ConditionColor(Some(KnownConditions[3])) == OrangeClass
    ensures ConditionColor(Some(KnownConditions[4])) == RedClass
  {
    LowerOfLowercase("new");
    LowerOfLowercase("like new");
    LowerOfLowercase("good");
    LowerOfLowercase("fair");
    LowerOfLowercase("poor");
  }

  lemma LowerOfLowercase(s: string)
    requires forall k :: 0 <= k < |s| ==> !Text.IsUpperAscii(s[k])
    ensures Text.Lower(s) == s
  {
  }

  /** The heart and the (unrendered) local saves count. */
  datatype CardState = CardState(isSaved: bool, savesCount: int)

  /** `useState(book.is_saved || false)` and `useState(book.saves_count)`. */
  function InitialCard(d: BookWithDetails): (r: CardState)
    ensures r.isSaved <==> d.isSaved == Some(true)
    ensures r.savesCount == d.book.savesCount
  {
    CardState(d.isSaved.GetOr(false), d.book.savesCount)
  }

  /** `handleToggleSave`: without a user nothing happens; otherwise the heart
      takes the reported state and the count moves by one towards it. */
  function ToggleOnCard(s: BookStore.Store, user: Option<Id>, bookId: Id, st: CardState,
                        faults: BookStore.ToggleFaults): (r: (BookStore.Store, CardState))
    ensures user.None? ==> r == (s, st)
    ensures user.Some? ==> r.1.savesCount == st.savesCount + (if r.1.isSaved then 1 else -1)
    // the store is the toggle's, and the heart takes the `saved` it reports
    ensures user.Some? ==>
      && r.0 == BookStore.ToggleSave(s, bookId, user.value, faults).0
      && r.1.isSaved == BookStore.ToggleSave(s, bookId, user.value, faults).1.saved
    ensures user.Some? && !faults.writeFails && !faults.lookupFails ==>
      (r.1.isSaved <==> SavedPair(user.value, bookId) in r.0.saved)
  {
    if user.None? then (s, st)
    else
      var res := BookStore.ToggleSave(s, bookId, user.value, faults);
      var saved := res.1.saved;
      (res.0, CardState(saved, if saved then st.savesCount + 1 else st.savesCount - 1))
  }

  /** Any failed toggle (a failed write, or the re-insert of a pair a failed
      lookup hid) reports "not saved", so the local count still drops. */
  lemma FailedToggleDecrements(s: BookStore.Store, userId: Id, bookId: Id, st: CardState,
                               faults: BookStore.ToggleFaults)
    requires faults.writeFails || (faults.lookupFails && SavedPair(userId, bookId) in s.saved)
    ensures var r := ToggleOnCard(s, Some(userId), bookId, st, faults);
            r.0 == s && r.1 == CardState(false, st.savesCount - 1)
  {
  }

  /** Starting from the row's counter, a fault-free toggle leaves the local
      count equal to the row's new counter. */
  lemma LocalCountFollowsRow(s: BookStore.Store, userId: Id, bookId: Id, st: CardState, i: int)
    requires 0 <= i < |s.books| && s.books[i].id == bookId
    requires st.savesCount == s.books[i].savesCount
    ensures var r := ToggleOnCard(s, Some(userId), bookId, st, BookStore.NoToggleFaults);
            r.1.savesCount == r.0.books[i].savesCount
  {
  }
}

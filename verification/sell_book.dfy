/** The listing form's client state: the bounded image list with its
    previews, the exam/subject dependency, the price conversion and the
    outcome of submitting the form. */
module SellBook {
  import opened Wrappers
  import opened Types
  import Seqs
  import BookStore

  /** A selected file; its contents are not modelled. */
  datatype File = File(name: string)

  /** The data URL a `FileReader` produces for a file. */
  datatype Preview = DataUrl(file: File)

  const MaxImages: nat := 5
  const TooManyImages := "Maximum 5 images allowed"

  /** The page's image state and its error banner. */
  datatype ImageState = ImageState(images: seq<File>, previews: seq<Preview>, error: string)

  function Previews(files: seq<File>): (r: seq<Preview>)
    ensures |r| == |files|
    ensures forall i :: 0 <= i < |files| ==> r[i] == DataUrl(files[i])
  {
    seq(|files|, i requires 0 <= i < |files| => DataUrl(files[i]))
  }

  /** The state the page keeps: at most five images, each with its preview
      at the same position. */
  predicate WellFormed(st: ImageState)
  {
    |st.images| <= MaxImages && st.previews == Previews(st.images)
  }

  /** `handleImageChange`: a selection that would exceed five images is
      refused with an error and changes no list; otherwise the files are
      appended in order (each preview read is one atomic step here). */
  function AddImages(st: ImageState, files: seq<File>): (r: ImageState)
    ensures |st.images| + |files| > MaxImages ==>
      r.images == st.images && r.previews == st.previews && r.error == TooManyImages
    ensures |st.images| + |files| <= MaxImages ==>
      r.images == st.images + files && r.error == st.error
    ensures WellFormed(st) ==> WellFormed(r)
  {
    if |files| + |st.images| > MaxImages then st.(error := TooManyImages)
    else
      assert Previews(st.images + files) == Previews(st.images) + Previews(files);
      st.(images := st.images + files, previews := st.previews + Previews(files))
  }

  /** `removeImage(index)`: drops the same position from both lists. */
  function RemoveImage(st: ImageState, index: int): (r: ImageState)
    ensures 0 <= index < |st.images| ==> r.images == st.images[..index] + st.images[index + 1..]
    ensures !(0 <= index < |st.images|) ==> r.images == st.images
    ensures 0 <= index < |st.previews| ==> r.previews == st.previews[..index] + st.previews[index + 1..]
    ensures r.error == st.error
    ensures WellFormed(st) ==> WellFormed(r)
  {
    var r := st.(images := Seqs.WithoutIndex(st.images, index), previews := Seqs.WithoutIndex(st.previews, index));
    assert WellFormed(st) && 0 <= index < |st.images| ==>
      Previews(st.images[..index] + st.images[index + 1..]) == st.previews[..index] + st.previews[index + 1..];
    r
  }

  /** The upload control is offered only while fewer than five images are held. */
  predicate CanAddMore(st: ImageState)
  {
    |st.images| < MaxImages
  }

  /** While the control is hidden, the single file its picker could still
      deliver is refused. */
  lemma FullListRefusesMore(st: ImageState, f: File)
    requires WellFormed(st) && !CanAddMore(st)
    ensures AddImages(st, [f]).images == st.images
  {
  }

  /** The form fields the model follows. */
  datatype ListingForm = ListingForm(
    title: string,
    examId: string,
    subjectId: string,
    conditionId: string,
    listingType: ListingType,
    price: string,
    city: string,
    state: string,
    isNegotiable: bool
  )

  /** Choosing an exam clears the subject and changes nothing else. */
  function SelectExam(form: ListingForm, examId: string): (r: ListingForm)
    ensures r.examId == examId && r.subjectId == ""
    ensures r.(examId := form.examId, subjectId := form.subjectId) == form
  {
    form.(examId := examId, subjectId := "")
  }

  /** `formData.price ? parseFloat(formData.price) : null`. The number parser
      is a parameter. */
  function PriceForCreate(text: string, parse: string -> real): (r: Option<real>)
    ensures r.None? <==> text == ""
    ensures r.Some? ==> r.value == parse(text)
  {
    if text == "" then None else Some(parse(text))
  }

  /** What `uploadBookImage` reports for one file. */
  datatype UploadResult = Uploaded(url: string) | UploadFailed

  /** The cover-image update the page requests after the uploads. */
  datatype CoverRequest = CoverRequest(bookId: Id, coverImageUrl: string)

  /** `results[0]?.url`, if truthy, becomes the cover: the first upload's URL,
      not the first successful one. */
  function CoverUpdate(bookId: Id, results: seq<UploadResult>): (r: Option<CoverRequest>)
    ensures r.Some? <==> |results| > 0 && results[0].Uploaded? && results[0].url != ""
    ensures r.Some? ==> r.value == CoverRequest(bookId, results[0].url)
  {
    if |results| > 0 && results[0].Uploaded? && results[0].url != "" then
      Some(CoverRequest(bookId, results[0].url))
    else None
  }

  /** A failed first upload means no cover, even when a later upload worked. */
  lemma FirstUploadDecidesCover(bookId: Id, url: string)
    requires url != ""
    ensures CoverUpdate(bookId, [UploadFailed, Uploaded(url)]).None?
    ensures CoverUpdate(bookId, [Uploaded(url), UploadFailed]) == Some(CoverRequest(bookId, url))
  {
  }

  /** Where `handleSubmit` leaves the page. */
  datatype SubmitOutcome =
    | NotSignedIn                                         // no user: nothing happens
    | SubmitFailed(message: string)                       // the error banner is shown
    | Submitted(bookId: Id, cover: Option<CoverRequest>)  // navigates to the new listing

  /** `handleSubmit`, given what `createBook` returned, what each upload
      reports, and whether the cover request threw (and with what message). */
  function Submit(user: Option<Id>, created: BookStore.RowResult, images: seq<File>,
                  upload: File -> UploadResult, coverError: Option<string>): (r: SubmitOutcome)
    ensures user.None? <==> r.NotSignedIn?
    ensures user.Some? && (created.error.Some? || created.data.None?) ==> r.SubmitFailed? && r.message != ""
    ensures r.Submitted? ==> created.data.Some? && created.error.None? && r.bookId == created.data.value.id
    // the cover is the first image's upload URL, when that upload produced one
    ensures r.Submitted? ==>
      r.cover == (if |images| > 0 && upload(images[0]).Uploaded? && upload(images[0]).url != ""
                  then Some(CoverRequest(r.bookId, upload(images[0]).url)) else None)
    // a cover request that throws stops the page from navigating and shows its message
    ensures r.Submitted? ==> r.cover.None? || coverError.None?
    ensures r.SubmitFailed? && created.error.None? && created.data.Some? ==>
      coverError.Some? && r.message == (if coverError.value != "" then coverError.value else "Failed to create listing")
    // a created listing navigates unless its cover request was made and threw
    ensures user.Some? && created.error.None? && created.data.Some? &&
            (coverError.None? || !(|images| > 0 && upload(images[0]).Uploaded? && upload(images[0]).url != "")) ==>
      r.Submitted?
  {
    if user.None? then NotSignedIn
    else if created.error.Some? || created.data.None? then
      var msg := if created.error.Some? then ErrorMessage(created.error.value) else "Failed to create book listing";
      SubmitFailed(if msg != "" then msg else "Failed to create book listing")
    else
      var book := created.data.value;
      var results := seq(|images|, i requires 0 <= i < |images| => upload(images[i]));
      var cover := if |images| > 0 then CoverUpdate(book.id, results) else None;
      if cover.Some? && coverError.Some? then
        SubmitFailed(if coverError.value != "" then coverError.value else "Failed to create listing")
      else Submitted(book.id, cover)
  }

  /** Creating a listing through the store and submitting: the listing belongs
      to the signed-in user and, with three uploaded images, the cover request
      carries the first image's URL. */
  lemma SubmitWithThreeImages(s: BookStore.Store, row: Book, userId: Id, images: seq<File>,
                              upload: File -> UploadResult)
    requires |images| == 3
    requires forall f :: upload(f).Uploaded? && upload(f).url != ""
    ensures var c := BookStore.CreateBook(s, row, userId, false);
            var r := Submit(Some(userId), c.1, images, upload, None);
            && c.1.data.Some? && c.1.data.value.sellerId == userId
            && r == Submitted(row.id, Some(CoverRequest(row.id, upload(images[0]).url)))
  {
  }
}

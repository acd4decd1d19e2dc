/** Rows of the hosted database and the request records the pages pass to the
    data-access layer. Timestamps are abstract integers (a larger value is a
    later instant); money is an abstract real number. */
module Types {
  import opened Wrappers

  /** Every identifier (uuid) is an opaque string. */
  type Id = string

  datatype ListingType = Sell | Rent | Exchange

  datatype Status = Available | Sold | Rented | Reserved | Deleted

  datatype ContactMethod = Chat | PhoneCall | ChatOrPhone

  /** One row of the `books` table. `None` is SQL NULL. */
  datatype Book = Book(
    id: Id,
    sellerId: Id,
    examId: Option<Id>,
    subjectId: Option<Id>,
    conditionId: Option<Id>,
    title: string,
    author: Option<string>,
    isbn: Option<string>,
    edition: Option<string>,
    publisher: Option<string>,
    description: Option<string>,
    listingType: ListingType,
    price: Option<real>,
    rentalPricePerMonth: Option<real>,
    city: string,
    state: string,
    pincode: Option<string>,
    status: Status,
    viewsCount: int,
    savesCount: int,
    coverImageUrl: Option<string>,
    isNegotiable: bool,
    preferContactMethod: ContactMethod,
    createdAt: int,
    updatedAt: int
  )

  /** One row of the `book_images` table. */
  datatype BookImage = BookImage(id: Id, bookId: Id, imageUrl: string, displayOrder: int, uploadedAt: int)

  /** One row of the `exam_categories` table (the columns the pages read). */
  datatype ExamCategory = ExamCategory(id: Id, name: string, slug: string)

  /** One row of the `subjects` table (the columns the pages read). */
  datatype Subject = Subject(id: Id, examId: Id, name: string, slug: string)

  /** One row of the `book_conditions` table (the columns the pages read). */
  datatype BookCondition = BookCondition(id: Id, name: string)

  /** A row of `saved_books`: its existence is the "saved" state. */
  datatype SavedPair = SavedPair(userId: Id, bookId: Id)

  /** A book as the read endpoints return it: the row plus the joined images,
      the joined condition's name and, for the single-book fetch, `is_saved`. */
  datatype BookWithDetails = BookWithDetails(
    book: Book,
    images: Option<seq<BookImage>>,
    conditionName: Option<string>,
    isSaved: Option<bool>
  )

  /** The optional search criteria of the listing query; `None` is `undefined`. */
  datatype SearchFilters = SearchFilters(
    exam: Option<Id>,
    subject: Option<Id>,
    condition: Option<Id>,
    minPrice: Option<real>,
    maxPrice: Option<real>,
    city: Option<string>,
    state: Option<string>,
    listingType: Option<ListingType>,
    query: Option<string>
  )

  /** The criteria object with every field left undefined. */
  const NoFilters := SearchFilters(None, None, None, None, None, None, None, None, None)

  datatype PaginationParams = PaginationParams(page: int, limit: int)

  /** JavaScript truthiness of an optional string: present and non-empty. */
  predicate Truthy(s: Option<string>)
  {
    s.Some? && s.value != ""
  }

  /** The failures the data-access layer reports. */
  datatype ApiError =
    | BackendError          // any error the hosted service returns
    | UniqueViolation       // inserting a (user, book) pair that already exists
    | BookNotFound          // the single-book fetch found no row
    | NotSingleRow          // `.single()`/`.maybeSingle()` saw the wrong number of rows

  /** The message text the caller sees for a locally raised error. */
  function ErrorMessage(e: ApiError): string
  {
    match e
    case BookNotFound => "Book not found"
    case _ => "backend error"
  }
}

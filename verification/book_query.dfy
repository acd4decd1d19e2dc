/** The listing query of `getBooks`: a fixed `status = available` predicate,
    one predicate per supplied filter, newest-first ordering and an optional
    inclusive row window. The hosted backend is an in-memory table. */
module BookQuery {
  import opened Wrappers
  import opened Types
  import opened Text
  import Seqs

  /** One row predicate the query builder chains onto the request. */
  datatype Predicate =
    | StatusIs(status: Status)
    | ExamIs(exam: Id)
    | SubjectIs(subject: Id)
    | ConditionIs(condition: Id)
    | CityLike(city: string)
    | StateLike(state: string)
    | ListingTypeIs(listingType: ListingType)
    | PriceAtLeast(min: real)
    | PriceAtMost(max: real)
    | TitleLike(title: string)

  /** How the database evaluates one predicate on one row. A NULL column
      never equals a value and never satisfies a price bound. */
  predicate Holds(p: Predicate, b: Book)
  {
    match p
    case StatusIs(s) => b.status == s
    case ExamIs(e) => b.examId == Some(e)
    case SubjectIs(s) => b.subjectId == Some(s)
    case ConditionIs(c) => b.conditionId == Some(c)
    case CityLike(c) => ILikeContains(b.city, c)
    case StateLike(s) => ILikeContains(b.state, s)
    case ListingTypeIs(t) => b.listingType == t
    case PriceAtLeast(m) => b.price.Some? && b.price.value >= m
    case PriceAtMost(m) => b.price.Some? && b.price.value <= m
    case TitleLike(t) => ILikeContains(b.title, t)
  }

  /** Chained builder calls are combined by AND. */
  predicate HoldsAll(ps: seq<Predicate>, b: Book)
  {
    forall i :: 0 <= i < |ps| ==> Holds(ps[i], b)
  }

  /** One chained call, issued only when its guard holds. */
  function When(guard: bool, p: Predicate): seq<Predicate>
  {
    if guard then [p] else []
  }

  /** The chain up to the condition filter: status, exam, subject, condition. */
  function IdStage(f: SearchFilters): seq<Predicate>
  {
    [StatusIs(Available)]
    + When(Truthy(f.exam), ExamIs(f.exam.GetOr("")))
    + When(Truthy(f.subject), SubjectIs(f.subject.GetOr("")))
    + When(Truthy(f.condition), ConditionIs(f.condition.GetOr("")))
  }

  /** The chain continued with city, state and listing type. */
  function PlaceStage(f: SearchFilters): seq<Predicate>
  {
    IdStage(f)
    + When(Truthy(f.city), CityLike(f.city.GetOr("")))
    + When(Truthy(f.state), StateLike(f.state.GetOr("")))
    + When(f.listingType.Some?, ListingTypeIs(f.listingType.GetOr(Sell)))
  }

  /** The predicates `getBooks` chains, in the order it chains them. String
      filters are tested for truthiness; the price bounds for `!== undefined`. */
  function Compose(filters: Option<SearchFilters>): (ps: seq<Predicate>)
    ensures 1 <= |ps| <= 10
    ensures ps[0] == StatusIs(Available)
  {
    var f := filters.GetOr(NoFilters);
    PlaceStage(f)
    + When(f.minPrice.Some?, PriceAtLeast(f.minPrice.GetOr(0.0)))
    + When(f.maxPrice.Some?, PriceAtMost(f.maxPrice.GetOr(0.0)))
    + When(Truthy(f.query), TitleLike(f.query.GetOr("")))
  }

  /** What the filters promise, stated field by field without the builder. */
  predicate SatisfiesFilters(filters: Option<SearchFilters>, b: Book)
  {
    filters.None? ||
    var f := filters.value;
    && (Truthy(f.exam) ==> b.examId == f.exam)
    && (Truthy(f.subject) ==> b.subjectId == f.subject)
    && (Truthy(f.condition) ==> b.conditionId == f.condition)
    && (Truthy(f.city) ==> ILikeContains(b.city, f.city.value))
    && (Truthy(f.state) ==> ILikeContains(b.state, f.state.value))
    && (f.listingType.Some? ==> b.listingType == f.listingType.value)
    && (f.minPrice.Some? ==> b.price.Some? && b.price.value >= f.minPrice.value)
    && (f.maxPrice.Some? ==> b.price.Some? && b.price.value <= f.maxPrice.value)
    && (Truthy(f.query) ==> ILikeContains(b.title, f.query.value))
  }

  /** Chaining one more call adds its predicate to the conjunction. */
  lemma HoldsAllStep(ps: seq<Predicate>, guard: bool, p: Predicate, b: Book)
    ensures HoldsAll(ps + When(guard, p), b) <==> HoldsAll(ps, b) && (guard ==> Holds(p, b))
  {
    var qs := ps + When(guard, p);
    if HoldsAll(ps, b) && (guard ==> Holds(p, b)) {
      forall i | 0 <= i < |qs|
        ensures Holds(qs[i], b)
      {
        if i < |ps| {
          assert qs[i] == ps[i];
        }
      }
    }
    if HoldsAll(qs, b) {
      forall i | 0 <= i < |ps|
        ensures Holds(ps[i], b)
      {
        assert qs[i] == ps[i];
      }
      if guard {
        assert qs[|ps|] == p;
      }
    }
  }

  lemma IdStageMeaning(f: SearchFilters, b: Book)
    ensures HoldsAll(IdStage(f), b) <==>
      && b.status == Available
      && (Truthy(f.exam) ==> b.examId == f.exam)
      && (Truthy(f.subject) ==> b.subjectId == f.subject)
      && (Truthy(f.condition) ==> b.conditionId == f.condition)
  {
    var p0 := [StatusIs(Available)];
    assert p0[0] == StatusIs(Available);
    assert HoldsAll(p0, b) <==> Holds(p0[0], b);
    var p1 := p0 + When(Truthy(f.exam), ExamIs(f.exam.GetOr("")));
    HoldsAllStep(p0, Truthy(f.exam), ExamIs(f.exam.GetOr("")), b);
    var p2 := p1 + When(Truthy(f.subject), SubjectIs(f.subject.GetOr("")));
    HoldsAllStep(p1, Truthy(f.subject), SubjectIs(f.subject.GetOr("")), b);
    HoldsAllStep(p2, Truthy(f.condition), ConditionIs(f.condition.GetOr("")), b);
  }

  lemma PlaceStageMeaning(f: SearchFilters, b: Book)
    ensures HoldsAll(PlaceStage(f), b) <==>
      && HoldsAll(IdStage(f), b)
      && (Truthy(f.city) ==> ILikeContains(b.city, f.city.value))
      && (Truthy(f.state) ==> ILikeContains(b.state, f.state.value))
      && (f.listingType.Some? ==> b.listingType == f.listingType.value)
  {
    var p3 := IdStage(f);
    var p4 := p3 + When(Truthy(f.city), CityLike(f.city.GetOr("")));
    HoldsAllStep(p3, Truthy(f.city), CityLike(f.city.GetOr("")), b);
    var p5 := p4 + When(Truthy(f.state), StateLike(f.state.GetOr("")));
    HoldsAllStep(p4, Truthy(f.state), StateLike(f.state.GetOr("")), b);
    HoldsAllStep(p5, f.listingType.Some?, ListingTypeIs(f.listingType.GetOr(Sell)), b);
  }

  /** The composed query is a conjunction: a row passes it exactly when it is
      available and meets every supplied filter at once. */
  lemma ComposeIsConjunction(filters: Option<SearchFilters>, b: Book)
    ensures HoldsAll(Compose(filters), b) <==> b.status == Available && SatisfiesFilters(filters, b)
  {
    var f := filters.GetOr(NoFilters);
    IdStageMeaning(f, b);
    PlaceStageMeaning(f, b);
    var p6 := PlaceStage(f);
    var p7 := p6 + When(f.minPrice.Some?, PriceAtLeast(f.minPrice.GetOr(0.0)));
    HoldsAllStep(p6, f.minPrice.Some?, PriceAtLeast(f.minPrice.GetOr(0.0)), b);
    var p8 := p7 + When(f.maxPrice.Some?, PriceAtMost(f.maxPrice.GetOr(0.0)));
    HoldsAllStep(p7, f.maxPrice.Some?, PriceAtMost(f.maxPrice.GetOr(0.0)), b);
    HoldsAllStep(p8, Truthy(f.query), TitleLike(f.query.GetOr("")), b);
  }

  /** `undefined` for an empty string filter. */
  function DropEmpty(s: Option<string>): Option<string>
  {
    if Truthy(s) then s else None
  }

  /** An empty string filter imposes exactly what an absent one does: nothing. */
  lemma EmptyStringFiltersAddNothing(f: SearchFilters)
    ensures Compose(Some(f)) == Compose(Some(f.(exam := DropEmpty(f.exam), subject := DropEmpty(f.subject),
                                               condition := DropEmpty(f.condition), city := DropEmpty(f.city),
                                               state := DropEmpty(f.state), query := DropEmpty(f.query))))
  {
  }

  /** A price bound applies whenever it is defined, even when it is 0, and a
      row whose price is NULL fails it. */
  lemma NullPriceFailsEveryBound(f: SearchFilters, b: Book)
    requires f.minPrice.Some? || f.maxPrice.Some?
    requires b.price.None?
    ensures !HoldsAll(Compose(Some(f)), b)
  {
    ComposeIsConjunction(Some(f), b);
  }

  /** The rows of `table` that pass the composed query, in table order. */
  function Matching(table: seq<Book>, filters: Option<SearchFilters>): (r: seq<Book>)
    ensures forall b :: b in r <==> b in table && b.status == Available && SatisfiesFilters(filters, b)
    ensures forall b: Book {:trigger multiset(r)[b]} :: b.status == Available && SatisfiesFilters(filters, b) ==> multiset(r)[b] == multiset(table)[b]
  {
    var ps := Compose(filters);
    assert forall b :: HoldsAll(ps, b) <==> b.status == Available && SatisfiesFilters(filters, b) by {
      forall b ensures HoldsAll(ps, b) <==> b.status == Available && SatisfiesFilters(filters, b) {
        ComposeIsConjunction(filters, b);
      }
    }
    Seqs.Filter(table, b => HoldsAll(ps, b))
  }

  /** `.order('created_at', { ascending: false })`. */
  predicate NewestFirst(s: seq<Book>)
  {
    forall i, j :: 0 <= i < j < |s| ==> s[i].createdAt >= s[j].createdAt
  }

  /** Putting a row no older than the current first row in front keeps the order. */
  lemma PrependNewest(x: Book, s: seq<Book>)
    requires NewestFirst(s)
    requires |s| > 0 ==> x.createdAt >= s[0].createdAt
    ensures NewestFirst([x] + s)
  {
    var r := [x] + s;
    forall i, j | 0 <= i < j < |r|
      ensures r[i].createdAt >= r[j].createdAt
    {
      assert r[j] == s[j - 1];
      if i > 0 {
        assert r[i] == s[i - 1];
      } else if j > 1 {
        assert s[0].createdAt >= s[j - 1].createdAt;
      }
    }
  }

  function InsertByAge(b: Book, s: seq<Book>): (r: seq<Book>)
    requires NewestFirst(s)
    ensures NewestFirst(r)
    ensures multiset(r) == multiset(s) + multiset{b}
    ensures |r| == |s| + 1
    ensures r[0] == b || (|s| > 0 && r[0] == s[0])
  {
    if |s| == 0 || b.createdAt >= s[0].createdAt then
      PrependNewest(b, s);
      [b] + s
    else
      var rest := InsertByAge(b, s[1..]);
      assert s == [s[0]] + s[1..];
      assert |s| > 1 ==> s[0].createdAt >= s[1].createdAt;
      PrependNewest(s[0], rest);
      [s[0]] + rest
  }

  /** The ordering the backend applies; ties keep no particular order. */
  function SortNewestFirst(s: seq<Book>): (r: seq<Book>)
    ensures NewestFirst(r)
    ensures multiset(r) == multiset(s)
  {
    if |s| == 0 then []
    else
      assert s == [s[0]] + s[1..];
      InsertByAge(s[0], SortNewestFirst(s[1..]))
  }

  function Max0(x: int): nat
  {
    if x < 0 then 0 else x
  }

  /** `.range(from, to)`: the rows at positions `from` through `to`, both
      inclusive, of those that exist. */
  function Window(s: seq<Book>, from: int, to: int): (r: seq<Book>)
    ensures |r| <= Max0(to - Max0(from) + 1)
    ensures forall k :: 0 <= k < |r| ==> Max0(from) + k <= to && Max0(from) + k < |s| && r[k] == s[Max0(from) + k]
    ensures forall i :: 0 <= i < |s| && Max0(from) <= i <= to ==> i - Max0(from) < |r| && r[i - Max0(from)] == s[i]
  {
    var lo := if Max0(from) < |s| then Max0(from) else |s|;
    var hi := if to + 1 < lo then lo else if to + 1 > |s| then |s| else to + 1;
    s[lo..hi]
  }

  function PageStart(p: PaginationParams): int
  {
    (p.page - 1) * p.limit
  }

  function PageEnd(p: PaginationParams): int
  {
    PageStart(p) + p.limit - 1
  }

  /** The window a page selects. No bound on `page` is checked. */
  function PageWindow(s: seq<Book>, p: PaginationParams): (r: seq<Book>)
    ensures |r| <= Max0(p.limit)
  {
    var r := Window(s, PageStart(p), PageEnd(p));
    assert |r| <= Max0(p.limit) by {
      if PageStart(p) < 0 && p.limit >= 0 {
        assert PageEnd(p) - 0 + 1 <= p.limit;
      }
    }
    r
  }

  datatype ListResult = ListResult(data: seq<Book>, count: Option<int>, error: Option<ApiError>)

  /** `getBooks(filters, pagination)` against `table`. `backendFails` stands
      for any error the hosted service reports. The request never asks for a
      row count, so a successful call reports `count` as null. */
  function GetBooks(table: seq<Book>, filters: Option<SearchFilters>, pagination: Option<PaginationParams>,
                    backendFails: bool): (r: ListResult)
    ensures backendFails ==> r == ListResult([], Some(0), Some(BackendError))
    ensures !backendFails ==> r.error.None? && r.count.None?
    ensures forall b :: b in r.data ==> b in table && b.status == Available && SatisfiesFilters(filters, b)
    ensures NewestFirst(r.data)
    ensures pagination.Some? ==> |r.data| <= Max0(pagination.value.limit)
    ensures !backendFails && pagination.None? ==>
      forall b: Book {:trigger multiset(r.data)[b]} :: b.status == Available && SatisfiesFilters(filters, b) ==>
        multiset(r.data)[b] == multiset(table)[b]
  {
    if backendFails then ListResult([], Some(0), Some(BackendError))
    else
      var ordered := SortNewestFirst(Matching(table, filters));
      assert forall b :: b in ordered <==> b in Matching(table, filters) by {
        assert forall b :: b in ordered <==> b in multiset(ordered);
      }
      match pagination
      case None => ListResult(ordered, None, None)
      case Some(p) =>
        var w := PageWindow(ordered, p);
        assert forall b :: b in w ==> b in ordered;
        ListResult(w, None, None)
  }

  /** A paginated call returns the page's window of what the same call without
      pagination returns. */
  lemma PageIsWindowOfFullListing(table: seq<Book>, filters: Option<SearchFilters>, p: PaginationParams)
    ensures GetBooks(table, filters, Some(p), false).data
         == Window(GetBooks(table, filters, None, false).data, PageStart(p), PageEnd(p))
  {
  }

  /** Page `P + 1` starts right after page `P` ends: together the two pages are
      the window of `2 * limit` rows that starts where page `P` starts. */
  lemma ConsecutivePagesAreContiguous(s: seq<Book>, page: int, limit: int)
    requires page >= 1 && limit >= 0
    ensures PageWindow(s, PaginationParams(page, limit)) + PageWindow(s, PaginationParams(page + 1, limit))
         == Window(s, (page - 1) * limit, (page + 1) * limit - 1)
  {
    var p := PaginationParams(page, limit);
    var q := PaginationParams(page + 1, limit);
    assert PageStart(q) == PageStart(p) + limit by {
      assert page * limit == (page - 1) * limit + limit;
    }
    assert (page + 1) * limit - 1 == PageStart(p) + 2 * limit - 1 by {
      assert (page + 1) * limit == (page - 1) * limit + 2 * limit;
    }
    assert PageStart(p) >= 0 by {
      assert (page - 1) * limit >= 0;
    }
    var n := |s|;
    var a := PageStart(p);
    var lo1 := if a < n then a else n;
    var hi1 := if a + limit > n then n else a + limit;
    var hi2 := if a + 2 * limit > n then n else a + 2 * limit;
    assert PageWindow(s, p) == s[lo1..hi1];
    assert PageWindow(s, q) == s[hi1..hi2];
    assert s[lo1..hi1] + s[hi1..hi2] == s[lo1..hi2];
  }

  /** A page number below 1 is not rejected; with a non-negative limit its
      window lies before the first row and selects nothing. */
  lemma PageBelowOneIsEmpty(s: seq<Book>, page: int, limit: int)
    requires page < 1 && limit >= 0
    ensures PageWindow(s, PaginationParams(page, limit)) == []
  {
    assert (page - 1) * limit <= -limit by {
      assert (page - 1) * limit == page * limit - limit;
      assert page * limit <= 0;
    }
  }
}

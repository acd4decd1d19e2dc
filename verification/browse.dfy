/** The Browse page's filter state: field updates, the URL query string it
    writes and reads, and the slug/name resolution that turns it into the
    listing query's criteria. */
module Browse {
  import opened Wrappers
  import opened Types
  import BookQuery

  /** The page's filter state; every field is a plain string, '' when unset. */
  datatype BrowseFilters = BrowseFilters(query: string, exam: string, subject: string, condition: string, city: string)

  datatype FilterKey = QueryKey | ExamKey | SubjectKey | ConditionKey | CityKey

  /** The fields in the order the state object declares them; URL parameters
      are written in this order. */
  const Keys: seq<FilterKey> := [QueryKey, ExamKey, SubjectKey, ConditionKey, CityKey]

  /** The property name of each field, which is also its URL parameter name. */
  function KeyName(k: FilterKey): string
  {
    match k
    case QueryKey => "query"
    case ExamKey => "exam"
    case SubjectKey => "subject"
    case ConditionKey => "condition"
    case CityKey => "city"
  }

  function Get(f: BrowseFilters, k: FilterKey): string
  {
    match k
    case QueryKey => f.query
    case ExamKey => f.exam
    case SubjectKey => f.subject
    case ConditionKey => f.condition
    case CityKey => f.city
  }

  function Set(f: BrowseFilters, k: FilterKey, v: string): (r: BrowseFilters)
    ensures Get(r, k) == v
    ensures forall k' :: k' != k ==> Get(r, k') == Get(f, k')
  {
    match k
    case QueryKey => f.(query := v)
    case ExamKey => f.(exam := v)
    case SubjectKey => f.(subject := v)
    case ConditionKey => f.(condition := v)
    case CityKey => f.(city := v)
  }

  /** The new filter state of `handleFilterChange(key, value)`: choosing an
      exam also clears the subject. */
  function ChangeFilter(f: BrowseFilters, k: FilterKey, v: string): (r: BrowseFilters)
    ensures Get(r, k) == v
    ensures k == ExamKey ==> r.subject == ""
    ensures forall k' :: k' != k && !(k == ExamKey && k' == SubjectKey) ==> Get(r, k') == Get(f, k')
  {
    var r := Set(f, k, v);
    if k == ExamKey then Set(r, SubjectKey, "") else r
  }

  /** URL parameters as `URLSearchParams` holds them: (name, value) in order. */
  type Params = seq<(string, string)>

  /** `params.get(name)`: the first value stored under `name`. */
  function ParamGet(ps: Params, name: string): Option<string>
  {
    if |ps| == 0 then None
    else if ps[0].0 == name then Some(ps[0].1)
    else ParamGet(ps[1..], name)
  }

  /** `ParamGet` finds a value exactly when the name occurs, and then finds the
      value of its first occurrence. */
  lemma {:induction false} ParamGetMeaning(ps: Params, name: string)
    ensures ParamGet(ps, name).None? <==> forall i :: 0 <= i < |ps| ==> ps[i].0 != name
    ensures ParamGet(ps, name).Some? ==>
      exists i :: 0 <= i < |ps| && ps[i] == (name, ParamGet(ps, name).value)
                  && forall j :: 0 <= j < i ==> ps[j].0 != name
    decreases |ps|
  {
    if |ps| > 0 && ps[0].0 != name {
      ParamGetMeaning(ps[1..], name);
      if ParamGet(ps, name).Some? {
        var i :| 0 <= i < |ps[1..]| && ps[1..][i] == (name, ParamGet(ps, name).value)
                 && forall j :: 0 <= j < i ==> ps[1..][j].0 != name;
        assert ps[i + 1] == ps[1..][i];
        assert forall j :: 1 <= j < i + 1 ==> ps[j] == ps[1..][j - 1];
      } else {
        assert forall i :: 1 <= i < |ps| ==> ps[i] == ps[1..][i - 1];
      }
    }
  }

  /** The names URL parameters are written under. */
  predicate IsKeyName(name: string)
  {
    name == "query" || name == "exam" || name == "subject" || name == "condition" || name == "city"
  }

  /** The parameters written for the given fields, in that order. */
  function EncodeKeys(f: BrowseFilters, keys: seq<FilterKey>): (r: Params)
    ensures |r| <= |keys|
    ensures forall i :: 0 <= i < |r| ==> r[i].1 != "" && IsKeyName(r[i].0)
  {
    if |keys| == 0 then []
    else
      (if Get(f, keys[0]) != "" then [(KeyName(keys[0]), Get(f, keys[0]))] else []) + EncodeKeys(f, keys[1..])
  }

  /** The URL parameters `handleFilterChange` writes: one per field with a
      non-empty value, under the field's own name. */
  function EncodeParams(f: BrowseFilters): (r: Params)
    ensures forall i :: 0 <= i < |r| ==> r[i].1 != "" && IsKeyName(r[i].0)
    ensures forall k :: ParamGet(r, KeyName(k)) == (if Get(f, k) != "" then Some(Get(f, k)) else None)
  {
    var r := EncodeKeys(f, Keys);
    forall k ensures ParamGet(r, KeyName(k)) == (if Get(f, k) != "" then Some(Get(f, k)) else None) {
      assert k == Keys[0] || k == Keys[1] || k == Keys[2] || k == Keys[3] || k == Keys[4];
      EncodedLookup(f, Keys, k);
    }
    r
  }

  /** Different fields have different parameter names. */
  lemma KeyNameInjective(a: FilterKey, b: FilterKey)
    requires a != b
    ensures KeyName(a) != KeyName(b)
  {
    assert KeyName(a)[0] != KeyName(b)[0] || |KeyName(a)| != |KeyName(b)|;
  }

  predicate NoDuplicates(keys: seq<FilterKey>)
  {
    forall i, j :: 0 <= i < j < |keys| ==> keys[i] != keys[j]
  }

  lemma {:induction false} EncodedLookup(f: BrowseFilters, keys: seq<FilterKey>, k: FilterKey)
    requires k in keys
    requires NoDuplicates(keys)
    ensures ParamGet(EncodeKeys(f, keys), KeyName(k)) == (if Get(f, k) != "" then Some(Get(f, k)) else None)
    decreases |keys|
  {
    var head := if Get(f, keys[0]) != "" then [(KeyName(keys[0]), Get(f, keys[0]))] else [];
    var rest := EncodeKeys(f, keys[1..]);
    assert EncodeKeys(f, keys) == head + rest;
    if keys[0] == k {
      if Get(f, k) == "" {
        assert k !in keys[1..] by {
          forall j | 0 <= j < |keys[1..]| ensures keys[1..][j] != k {
            assert keys[1..][j] == keys[j + 1];
          }
        }
        NameAbsent(f, keys[1..], KeyName(k));
        assert head + rest == rest;
      }
    } else {
      assert NoDuplicates(keys[1..]) by {
        forall i, j | 0 <= i < j < |keys[1..]| ensures keys[1..][i] != keys[1..][j] {
          assert keys[1..][i] == keys[i + 1] && keys[1..][j] == keys[j + 1];
        }
      }
      EncodedLookup(f, keys[1..], k);
      KeyNameInjective(keys[0], k);
      if head == [] {
        assert head + rest == rest;
      } else {
        assert (head + rest)[1..] == rest;
      }
    }
  }

  /** A name no listed field uses is not written. */
  lemma {:induction false} NameAbsent(f: BrowseFilters, keys: seq<FilterKey>, name: string)
    requires forall k :: k in keys ==> KeyName(k) != name
    ensures ParamGet(EncodeKeys(f, keys), name) == None
    decreases |keys|
  {
    if |keys| > 0 {
      assert forall k :: k in keys[1..] ==> k in keys;
      NameAbsent(f, keys[1..], name);
      var head := if Get(f, keys[0]) != "" then [(KeyName(keys[0]), Get(f, keys[0]))] else [];
      var rest := EncodeKeys(f, keys[1..]);
      assert EncodeKeys(f, keys) == head + rest;
      if head == [] {
        assert head + rest == rest;
      } else {
        assert (head + rest)[1..] == rest;
      }
    }
  }

  /** The initial filter state as written: each field is read back with
      `searchParams.get(...) || ''`, but the query is read from `q`. */
  function DecodeParamsAsWritten(ps: Params): BrowseFilters
  {
    BrowseFilters(ParamGet(ps, "q").GetOr(""), ParamGet(ps, "exam").GetOr(""), ParamGet(ps, "subject").GetOr(""),
                  ParamGet(ps, "condition").GetOr(""), ParamGet(ps, "city").GetOr(""))
  }

  /** Reloading the page restores every field except the search text, which
      is written under `query` and read from `q`. */
  lemma ReloadLosesQuery(f: BrowseFilters)
    ensures DecodeParamsAsWritten(EncodeParams(f)) == f.(query := "")
  {
    var ps := EncodeParams(f);
    NameAbsent(f, Keys, "q");
    assert ParamGet(ps, KeyName(ExamKey)) == (if f.exam != "" then Some(f.exam) else None);
    assert ParamGet(ps, KeyName(SubjectKey)) == (if f.subject != "" then Some(f.subject) else None);
    assert ParamGet(ps, KeyName(ConditionKey)) == (if f.condition != "" then Some(f.condition) else None);
    assert ParamGet(ps, KeyName(CityKey)) == (if f.city != "" then Some(f.city) else None);
  }

  /** A concrete search whose text a reload drops. */
  lemma ReloadLosesQueryExample()
    ensures var f := BrowseFilters("physics", "", "", "", "");
            DecodeParamsAsWritten(EncodeParams(f)) != f
  {
    ReloadLosesQuery(BrowseFilters("physics", "", "", "", ""));
  }

  /** The initial filter state read from the same names the page writes. */
  function DecodeParams(ps: Params): BrowseFilters
  {
    BrowseFilters(ParamGet(ps, "query").GetOr(""), ParamGet(ps, "exam").GetOr(""), ParamGet(ps, "subject").GetOr(""),
                  ParamGet(ps, "condition").GetOr(""), ParamGet(ps, "city").GetOr(""))
  }

  /** With reading and writing under the same names, every field round-trips. */
  lemma ReloadRestoresFilters(f: BrowseFilters)
    ensures DecodeParams(EncodeParams(f)) == f
  {
    var ps := EncodeParams(f);
    var r := DecodeParams(ps);
    assert forall k :: Get(r, k) == Get(f, k);
    assert Get(r, QueryKey) == Get(f, QueryKey);
    assert Get(r, ExamKey) == Get(f, ExamKey);
    assert Get(r, SubjectKey) == Get(f, SubjectKey);
    assert Get(r, ConditionKey) == Get(f, ConditionKey);
    assert Get(r, CityKey) == Get(f, CityKey);
  }

  /** One step of the page: the new filter state and the URL it writes. */
  function HandleFilterChange(f: BrowseFilters, k: FilterKey, v: string): (r: (BrowseFilters, Params))
    ensures r.0 == ChangeFilter(f, k, v)
    // the page's own reader gets back everything but the search text
    ensures DecodeParamsAsWritten(r.1) == r.0.(query := "")
    // a reader using the written names would get back the whole state
    ensures DecodeParams(r.1) == r.0
  {
    var nf := ChangeFilter(f, k, v);
    ReloadLosesQuery(nf);
    ReloadRestoresFilters(nf);
    (nf, EncodeParams(nf))
  }

  // ---------------------------------------------------------------------------
  // Resolution of the selected slugs and names into ids

  /** The index of the first element whose key is `wanted` (`Array.prototype.find`). */
  function FindFirst<T>(xs: seq<T>, key: T -> string, wanted: string): (r: Option<nat>)
    ensures r.Some? ==> r.value < |xs| && key(xs[r.value]) == wanted
    ensures r.Some? ==> forall j :: 0 <= j < r.value ==> key(xs[j]) != wanted
    ensures r.None? ==> forall j :: 0 <= j < |xs| ==> key(xs[j]) != wanted
  {
    if |xs| == 0 then None
    else if key(xs[0]) == wanted then Some(0)
    else match FindFirst(xs[1..], key, wanted)
      case None => None
      case Some(i) => Some(i + 1)
  }

  /** The exam category id for a slug: the first category with that slug. */
  function ResolveExam(categories: seq<ExamCategory>, slug: string): (r: Option<Id>)
    ensures r.None? <==> forall c :: c in categories ==> c.slug != slug
    ensures r.Some? ==> exists i :: 0 <= i < |categories| && categories[i].slug == slug && categories[i].id == r.value
                                    && forall j :: 0 <= j < i ==> categories[j].slug != slug
  {
    match FindFirst(categories, (c: ExamCategory) => c.slug, slug)
    case None => None
    case Some(i) => Some(categories[i].id)
  }

  /** The subject id for a slug, among the subjects loaded for the exam. */
  function ResolveSubject(subjects: seq<Subject>, slug: string): (r: Option<Id>)
    ensures r.None? <==> forall s :: s in subjects ==> s.slug != slug
    ensures r.Some? ==> exists i :: 0 <= i < |subjects| && subjects[i].slug == slug && subjects[i].id == r.value
                                    && forall j :: 0 <= j < i ==> subjects[j].slug != slug
  {
    match FindFirst(subjects, (s: Subject) => s.slug, slug)
    case None => None
    case Some(i) => Some(subjects[i].id)
  }

  /** The condition id for a condition's display name. */
  function ResolveCondition(conditions: seq<BookCondition>, name: string): (r: Option<Id>)
    ensures r.None? <==> forall c :: c in conditions ==> c.name != name
    ensures r.Some? ==> exists i :: 0 <= i < |conditions| && conditions[i].name == name && conditions[i].id == r.value
                                    && forall j :: 0 <= j < i ==> conditions[j].name != name
  {
    match FindFirst(conditions, (c: BookCondition) => c.name, name)
    case None => None
    case Some(i) => Some(conditions[i].id)
  }

  /** The criteria `loadBooks` sends: the five page fields, resolved; it never
      sets state, listing type or a price bound. */
  function SearchCriteria(f: BrowseFilters, categories: seq<ExamCategory>, subjects: seq<Subject>,
                          conditions: seq<BookCondition>): (r: SearchFilters)
    ensures r.state.None? && r.listingType.None? && r.minPrice.None? && r.maxPrice.None?
    ensures r.query == Some(f.query) && r.city == Some(f.city)
    // each id is that of the first entry with the page's slug or name, and absent when none has it
    ensures r.exam.None? <==> forall c :: c in categories ==> c.slug != f.exam
    ensures r.exam.Some? ==> exists i :: 0 <= i < |categories| && categories[i].slug == f.exam && categories[i].id == r.exam.value
                                         && forall j :: 0 <= j < i ==> categories[j].slug != f.exam
    ensures r.subject.None? <==> forall s :: s in subjects ==> s.slug != f.subject
    ensures r.subject.Some? ==> exists i :: 0 <= i < |subjects| && subjects[i].slug == f.subject && subjects[i].id == r.subject.value
                                            && forall j :: 0 <= j < i ==> subjects[j].slug != f.subject
    ensures r.condition.None? <==> forall c :: c in conditions ==> c.name != f.condition
    ensures r.condition.Some? ==> exists i :: 0 <= i < |conditions| && conditions[i].name == f.condition
                                              && conditions[i].id == r.condition.value
                                              && forall j :: 0 <= j < i ==> conditions[j].name != f.condition
  {
    SearchFilters(
      exam := ResolveExam(categories, f.exam),
      subject := ResolveSubject(subjects, f.subject),
      condition := ResolveCondition(conditions, f.condition),
      minPrice := None,
      maxPrice := None,
      city := Some(f.city),
      state := None,
      listingType := None,
      query := Some(f.query))
  }

  /** An exam slug no category has resolves to nothing, and then the listing
      ignores the exam entirely. */
  lemma UnknownExamImposesNothing(f: BrowseFilters, categories: seq<ExamCategory>, subjects: seq<Subject>,
                                  conditions: seq<BookCondition>, b: Book, otherExam: Option<Id>)
    requires forall c :: c in categories ==> c.slug != f.exam
    ensures var crit := Some(SearchCriteria(f, categories, subjects, conditions));
            BookQuery.HoldsAll(BookQuery.Compose(crit), b)
              == BookQuery.HoldsAll(BookQuery.Compose(crit), b.(examId := otherExam))
  {
    var crit := Some(SearchCriteria(f, categories, subjects, conditions));
    BookQuery.ComposeIsConjunction(crit, b);
    BookQuery.ComposeIsConjunction(crit, b.(examId := otherExam));
  }

  /** The books the page shows: `getBooks` with the resolved criteria and no
      pagination. Every one is available and matches the resolved criteria. */
  function LoadBooks(table: seq<Book>, f: BrowseFilters, categories: seq<ExamCategory>, subjects: seq<Subject>,
                     conditions: seq<BookCondition>, backendFails: bool): (r: seq<Book>)
    ensures backendFails ==> r == []
    ensures forall b :: b in r ==>
      && b in table
      && b.status == Available
      && BookQuery.SatisfiesFilters(Some(SearchCriteria(f, categories, subjects, conditions)), b)
    ensures BookQuery.NewestFirst(r)
    // and every matching available row of the table is shown, as often as it occurs there
    ensures !backendFails ==>
      forall b: Book {:trigger multiset(r)[b]} ::
        b.status == Available && BookQuery.SatisfiesFilters(Some(SearchCriteria(f, categories, subjects, conditions)), b) ==>
          multiset(r)[b] == multiset(table)[b]
  {
    BookQuery.GetBooks(table, Some(SearchCriteria(f, categories, subjects, conditions)), None, backendFails).data
  }
}

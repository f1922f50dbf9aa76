/** The public catalogue: the list of published courses and the paginated
    course search. The search builds a conjunction of optional filters, lists
    one page of the matching courses newest first and counts all of them with
    the same filter. */
module PublicCourses {
  import opened Entities
  import Listing
  import Slug

  /** The published courses, each once, in no particular order. */
  method FindAllCourses(st: Store) returns (r: seq<Course>)
    requires Valid(st)
    ensures forall c :: c in r <==> c in st.courses.Values && c.status == Published
    ensures forall i, j :: 0 <= i < j < |r| ==> r[i] != r[j]
  {
    r := [];
    var rest := st.courses.Values;
    while rest != {}
      invariant rest <= st.courses.Values
      invariant forall c :: c in r <==> c in st.courses.Values && c !in rest && c.status == Published
      invariant forall i, j :: 0 <= i < j < |r| ==> r[i] != r[j]
      decreases |rest|
    {
      var c :| c in rest;
      if c.status == Published {
        r := r + [c];
      }
      rest := rest - {c};
    }
  }

  /** The search parameters. `None` is a parameter that was not given
      (`undefined`); `isPaid` is `None` unless the value is a boolean, since a
      string such as "true" is not one. The country code only selects which
      price row is shown with each course. */
  datatype SearchParams = SearchParams(
    query: Option<string>,
    categoryId: Option<Id>,
    level: Option<string>,
    isPaid: Option<bool>,
    countryCode: Option<string>,
    page: Option<int>,
    limit: Option<int>)

  /** The page number after its default of 1. */
  function PageOf(p: SearchParams): int {
    if p.page.Some? then p.page.value else 1
  }

  /** The page size after its default of 10. */
  function LimitOf(p: SearchParams): int {
    if p.limit.Some? then p.limit.value else 10
  }

  /** How many matching courses the page skips. */
  function SkipOf(p: SearchParams): int {
    (PageOf(p) - 1) * LimitOf(p)
  }

  /** One conjunct of the search's `where` clause. */
  datatype Filter =
    | TextFilter(text: string)
    | CategoryFilter(categoryId: Id)
    | LevelFilter(level: string)
    | PaidFilter(isPaid: bool)

  /** The filters in the order the search adds them: text, category, level,
      paid. The text filter is added only for a non-empty query (the query
      defaults to ""), category and level only when truthy, and the paid
      filter whenever `isPaid` is a boolean, so `false` filters too. */
  function BuildFilters(p: SearchParams): (r: seq<Filter>)
    ensures forall f :: f in r <==>
              || (Truthy(p.query) && f == TextFilter(p.query.value))
              || (Truthy(p.categoryId) && f == CategoryFilter(p.categoryId.value))
              || (Truthy(p.level) && f == LevelFilter(p.level.value))
              || (p.isPaid.Some? && f == PaidFilter(p.isPaid.value))
    ensures |r| <= 4
    ensures |r| > 0 && Truthy(p.query) ==> r[0] == TextFilter(p.query.value)
  {
    var query := if p.query.Some? then p.query.value else "";
    (if query != "" then [TextFilter(query)] else [])
    + (if Truthy(p.categoryId) then [CategoryFilter(p.categoryId.value)] else [])
    + (if Truthy(p.level) then [LevelFilter(p.level.value)] else [])
    + (if p.isPaid.Some? then [PaidFilter(p.isPaid.value)] else [])
  }

  /** `t` occurs in `s` as a contiguous piece. */
  predicate Contains(s: string, t: string)
    decreases |s|
  {
    t <= s || (|s| > 0 && Contains(s[1..], t))
  }

  /** `Contains` finds `t` exactly when `t` starts at some position of `s`. */
  lemma {:induction false} ContainsIffOccurs(s: string, t: string)
    ensures Contains(s, t) <==> exists i :: 0 <= i <= |s| && t <= s[i..]
    decreases |s|
  {
    if t <= s {
      assert s[0..] == s;
    } else if |s| == 0 {
      forall i | 0 <= i <= |s| ensures !(t <= s[i..]) {
        assert s[i..] == s;
      }
    } else {
      ContainsIffOccurs(s[1..], t);
      if Contains(s[1..], t) {
        var i :| 0 <= i <= |s[1..]| && t <= s[1..][i..];
        assert s[1..][i..] == s[i + 1..];
      } else {
        forall i | 0 <= i <= |s| ensures !(t <= s[i..]) {
          if i == 0 {
            assert s[i..] == s;
          } else {
            assert s[i..] == s[1..][i - 1..];
          }
        }
      }
    }
  }

  /** Case-insensitive containment, as the database's `ILIKE` does it for
      ASCII letters. */
  predicate ContainsInsensitive(s: string, t: string) {
    Contains(Slug.ToLower(s), Slug.ToLower(t))
  }

  /** The text filter: the query occurs in the title, the short description or
      the owner's user name. */
  predicate TextMatches(c: Course, q: string, names: map<Id, string>) {
    || ContainsInsensitive(c.title, q)
    || (c.sortDescription.Some? && ContainsInsensitive(c.sortDescription.value, q))
    || (c.ownerId in names && ContainsInsensitive(names[c.ownerId], q))
  }

  predicate Matches(c: Course, f: Filter, names: map<Id, string>) {
    match f
    case TextFilter(q) => TextMatches(c, q, names)
    case CategoryFilter(id) => c.categoryId == Some(id)
    case LevelFilter(l) => c.level == l
    case PaidFilter(b) => c.isPaid == b
  }

  /** The `AND` of a filter list; the empty list matches every course. */
  predicate MatchesAll(c: Course, fs: seq<Filter>, names: map<Id, string>) {
    forall i :: 0 <= i < |fs| ==> Matches(c, fs[i], names)
  }

  /** The search's selection stated directly on the parameters: a given
      criterion constrains the course, a missing one does not. */
  predicate Selected(c: Course, p: SearchParams, names: map<Id, string>) {
    && (Truthy(p.query) ==> TextMatches(c, p.query.value, names))
    && (Truthy(p.categoryId) ==> c.categoryId == p.categoryId)
    && (Truthy(p.level) ==> c.level == p.level.value)
    && (p.isPaid.Some? ==> c.isPaid == p.isPaid.value)
  }

  /** The built filter list selects exactly the courses `Selected` describes. */
  lemma FiltersSelectExactly(c: Course, p: SearchParams, names: map<Id, string>)
    ensures MatchesAll(c, BuildFilters(p), names) <==> Selected(c, p, names)
  {
    var fs := BuildFilters(p);
    if MatchesAll(c, fs, names) {
      forall f | f in fs ensures Matches(c, f, names) {
        var i :| 0 <= i < |fs| && fs[i] == f;
      }
      if Truthy(p.query) { assert Matches(c, TextFilter(p.query.value), names); }
      if Truthy(p.categoryId) { assert Matches(c, CategoryFilter(p.categoryId.value), names); }
      if Truthy(p.level) { assert Matches(c, LevelFilter(p.level.value), names); }
      if p.isPaid.Some? { assert Matches(c, PaidFilter(p.isPaid.value), names); }
    } else {
      var i :| 0 <= i < |fs| && !Matches(c, fs[i], names);
      assert fs[i] in fs;
    }
  }

  /** The matching courses; the page and the total are both taken from this set. */
  function Matching(st: Store, p: SearchParams, names: map<Id, string>): set<Course>
    requires Valid(st)
  {
    set c | c in st.courses.Values && MatchesAll(c, BuildFilters(p), names)
  }

  /** `Math.ceil(total / limit)`, or `None` when `limit` is 0 and the quotient
      is not a finite number. */
  function TotalPages(total: nat, limit: int): (r: Option<int>)
    ensures r.Some? <==> limit != 0
    ensures limit > 0 ==> (r.value - 1) * limit < total <= r.value * limit
    ensures limit < 0 ==> r.value * limit <= total < (r.value - 1) * limit
  {
    if limit == 0 then None
    else if limit > 0 then
      var q := (total + limit - 1) / limit;
      CeilBounds(total, limit, q);
      Some(q)
    else
      var q := total / -limit;
      FloorBounds(total, -limit, q);
      Some(-q)
  }

  lemma CeilBounds(total: nat, limit: int, q: int)
    requires limit > 0 && q == (total + limit - 1) / limit
    ensures (q - 1) * limit < total <= q * limit
  {
    var rem := (total + limit - 1) % limit;
    assert total + limit - 1 == q * limit + rem;
    assert (q - 1) * limit == q * limit - limit;
  }

  lemma FloorBounds(total: nat, m: int, q: int)
    requires m > 0 && q == total / m
    ensures (-q) * (-m) <= total < (-q - 1) * (-m)
  {
    var rem := total % m;
    assert total == q * m + rem;
    assert (-q) * (-m) == q * m;
    assert (-q - 1) * (-m) == q * m + m;
  }

  /** `s` lists the set `m`, each element once, newest first. */
  ghost predicate NewestFirstListing(s: seq<Course>, m: set<Course>) {
    && |s| == |m|
    && (forall c :: c in s <==> c in m)
    && (forall i, j :: 0 <= i < j < |s| ==> s[i].createdAt >= s[j].createdAt)
  }

  /** The rows `skip` and `take` pick from a listing. */
  function Window(s: seq<Course>, skip: nat, take: nat): (r: seq<Course>)
    ensures |r| == if skip >= |s| then 0 else if take < |s| - skip then take else |s| - skip
  {
    if skip >= |s| then []
    else if take < |s| - skip then s[skip..skip + take]
    else s[skip..]
  }

  /** The response: one page of courses and the pagination metadata. */
  datatype SearchPage = SearchPage(
    data: seq<Course>, total: nat, page: int, limit: int, totalPages: Option<int>)

  function NewestKey(c: Course): int { -c.createdAt }

  /** Runs a search. `names` maps an owner id to the owner's user name.
      A negative skip or page size is refused as the database refuses it. */
  method SearchCourses(st: Store, names: map<Id, string>, p: SearchParams)
    returns (r: Result<SearchPage>)
    requires Valid(st)
    ensures r.Ok? <==> SkipOf(p) >= 0 && LimitOf(p) >= 0
    ensures r.Err? ==> r.error == InvalidPagination
    ensures r.Ok? ==>
      var m := Matching(st, p, names);
      && r.value.total == |m|
      && r.value.page == PageOf(p) && r.value.limit == LimitOf(p)
      && r.value.totalPages == TotalPages(|m|, LimitOf(p))
      && (forall c :: c in r.value.data ==> c in st.courses.Values && Selected(c, p, names))
      && (exists s :: NewestFirstListing(s, m)
                      && r.value.data == Window(s, SkipOf(p), LimitOf(p)))
    ensures p.page.None? && p.limit.None? ==>
              r.Ok? && r.value.page == 1 && r.value.limit == 10
              && |r.value.data| == if r.value.total < 10 then r.value.total else 10
  {
    var page := PageOf(p);
    var limit := LimitOf(p);
    var skip := (page - 1) * limit;
    if skip < 0 || limit < 0 {
      return Err(InvalidPagination);
    }
    var filters := BuildFilters(p);
    var m := set c | c in st.courses.Values && MatchesAll(c, filters, names);
    var sorted := Listing.SortByKey(m, NewestKey);
    assert forall i, j :: 0 <= i < j < |sorted| ==> NewestKey(sorted[i]) <= NewestKey(sorted[j]);
    assert NewestFirstListing(sorted, m);
    var data := Window(sorted, skip, limit);
    forall c | c in data ensures c in st.courses.Values && Selected(c, p, names) {
      assert c in sorted;
      FiltersSelectExactly(c, p, names);
    }
    r := Ok(SearchPage(data, |m|, page, limit, TotalPages(|m|, limit)));
  }
}

/**
  The query string `search` in `search.ts` sends to `/api/search`, and what
  `search_public` in `main.py` reads from it with its defaults.
 */
module SearchApi {
  import opened Common
  import opened Text
  import Q = QueryParams

  /** The arguments of `search`; `category_id` being `null` and being left
      out are the same `None`. */
  datatype SearchParams = SearchParams(
    query: string,
    exact: Option<bool>,
    page: Option<int>,
    perPage: Option<int>,
    categoryId: Option<int>)

  /** JavaScript truthiness of an optional number: absent and 0 are false. */
  predicate Truthy(n: Option<int>) {
    n.Some? && n.value != 0
  }

  /** `if (cond) params.set(name, value)`. */
  function SetWhen(u: Q.Params, cond: bool, name: string, value: string): (r: Q.Params)
    ensures Q.Get(r, name) == if cond then Some(value) else Q.Get(u, name)
    ensures forall n :: n != name ==> Q.Get(r, n) == Q.Get(u, n)
    ensures forall n :: n in Q.Names(r) <==> n in Q.Names(u) || (cond && n == name)
  {
    if cond then Q.Set(u, name, value) else u
  }

  /** The five steps of `search`, named. */
  function Steps(p: SearchParams): seq<Q.Params> {
    var u1 := Q.Set([], "query", p.query);
    var u2 := SetWhen(u1, p.exact == Some(true), "exact", "true");
    var u3 := SetWhen(u2, Truthy(p.page), "page", IntToDecimal(p.page.GetOr(0)));
    var u4 := SetWhen(u3, Truthy(p.perPage), "per_page", IntToDecimal(p.perPage.GetOr(0)));
    var u5 := SetWhen(u4, p.categoryId.Some?, "category_id", IntToDecimal(p.categoryId.GetOr(0)));
    [u1, u2, u3, u4, u5]
  }

  /** The parameters `search` builds: the query always; `exact` only as
      `true`; the page numbers only when truthy, as their decimal; the
      category whenever given, 0 included; and no other name. */
  function SearchQuery(p: SearchParams): (ps: Q.Params)
    ensures Q.Get(ps, "query") == Some(p.query)
    ensures Q.Get(ps, "exact") == (if p.exact == Some(true) then Some("true") else None)
    ensures Q.Get(ps, "page") == (if Truthy(p.page) then Some(IntToDecimal(p.page.value)) else None)
    ensures Q.Get(ps, "per_page") == (if Truthy(p.perPage) then Some(IntToDecimal(p.perPage.value)) else None)
    ensures Q.Get(ps, "category_id") == (if p.categoryId.Some? then Some(IntToDecimal(p.categoryId.value)) else None)
    ensures forall n :: n in Q.Names(ps) ==> n in {"query", "exact", "page", "per_page", "category_id"}
  {
    QueryValue(p);
    ExactValue(p);
    PageValue(p);
    PerPageValue(p);
    CategoryValue(p);
    SearchNames(p);
    Steps(p)[4]
  }

  // One lemma per parameter: each follows that name through the five steps.

  lemma QueryValue(p: SearchParams)
    ensures Q.Get(Steps(p)[4], "query") == Some(p.query)
  {
    assert "query" != "exact" && "query" != "page" && "query" != "per_page" && "query" != "category_id";
  }

  lemma ExactValue(p: SearchParams)
    ensures Q.Get(Steps(p)[4], "exact") == (if p.exact == Some(true) then Some("true") else None)
  {
    assert Q.Names([]) == [];
    assert "exact" != "query" && "exact" != "page" && "exact" != "per_page" && "exact" != "category_id";
  }

  lemma PageValue(p: SearchParams)
    ensures Q.Get(Steps(p)[4], "page") == (if Truthy(p.page) then Some(IntToDecimal(p.page.value)) else None)
  {
    assert Q.Names([]) == [];
    assert "page" != "query" && "page" != "exact" && "page" != "per_page" && "page" != "category_id";
  }

  lemma PerPageValue(p: SearchParams)
    ensures Q.Get(Steps(p)[4], "per_page") == (if Truthy(p.perPage) then Some(IntToDecimal(p.perPage.value)) else None)
  {
    assert Q.Names([]) == [];
    assert "per_page" != "query" && "per_page" != "exact" && "per_page" != "page" && "per_page" != "category_id";
  }

  lemma CategoryValue(p: SearchParams)
    ensures Q.Get(Steps(p)[4], "category_id") == (if p.categoryId.Some? then Some(IntToDecimal(p.categoryId.value)) else None)
  {
    assert Q.Names([]) == [];
    assert "category_id" != "query" && "category_id" != "exact" && "category_id" != "page" && "category_id" != "per_page";
  }

  lemma NameSent(p: SearchParams, n: string)
    ensures n in Q.Names(Steps(p)[4]) ==> n in {"query", "exact", "page", "per_page", "category_id"}
  {
    var u := Steps(p);
    assert Q.Names([]) == [];
    assert n in Q.Names(u[0]) ==> n == "query";
    assert n in Q.Names(u[1]) ==> n in Q.Names(u[0]) || n == "exact";
    assert n in Q.Names(u[2]) ==> n in Q.Names(u[1]) || n == "page";
    assert n in Q.Names(u[3]) ==> n in Q.Names(u[2]) || n == "per_page";
    assert n in Q.Names(u[4]) ==> n in Q.Names(u[3]) || n == "category_id";
  }

  lemma SearchNames(p: SearchParams)
    ensures forall n :: n in Q.Names(Steps(p)[4]) ==> n in {"query", "exact", "page", "per_page", "category_id"}
  {
    forall n ensures n in Q.Names(Steps(p)[4]) ==> n in {"query", "exact", "page", "per_page", "category_id"} {
      NameSent(p, n);
    }
  }

  /** What `search_public` sees: the query, `exact` (default false), the
      page (default 1), the page size (default 10) and the category (default
      none). */
  datatype SearchRequest = SearchRequest(query: string, exact: bool, page: int, perPage: int, categoryId: Option<int>)

  /** The server's reading of an integer parameter with a default. */
  function IntParam(ps: Q.Params, name: string, default: int): Option<int> {
    match Q.Get(ps, name)
    case None => Some(default)
    case Some(s) => ParseDecimal(s)
  }

  /** The server's reading of the query string, for the values this client
      sends (`exact` is read as true only from `true`); `None` when the
      query is missing or a number does not parse. */
  function ServerView(ps: Q.Params): Option<SearchRequest> {
    match (Q.Get(ps, "query"), IntParam(ps, "page", 1), IntParam(ps, "per_page", 10))
    case (Some(query), Some(page), Some(perPage)) =>
      var category := Q.Get(ps, "category_id");
      if category.Some? && ParseDecimal(category.value).None? then None
      else
        var categoryId := if category.Some? then ParseDecimal(category.value) else None;
        Some(SearchRequest(query, Q.Get(ps, "exact") == Some("true"), page, perPage, categoryId))
    case _ => None
  }

  /** The server's reading of any query string holding these values. */
  lemma ServerViewOf(ps: Q.Params, p: SearchParams)
    requires Q.Get(ps, "query") == Some(p.query)
    requires Q.Get(ps, "exact") == (if p.exact == Some(true) then Some("true") else None)
    requires Q.Get(ps, "page") == (if Truthy(p.page) then Some(IntToDecimal(p.page.value)) else None)
    requires Q.Get(ps, "per_page") == (if Truthy(p.perPage) then Some(IntToDecimal(p.perPage.value)) else None)
    requires Q.Get(ps, "category_id") == (if p.categoryId.Some? then Some(IntToDecimal(p.categoryId.value)) else None)
    ensures ServerView(ps) == Some(SearchRequest(
      p.query,
      p.exact == Some(true),
      if Truthy(p.page) then p.page.value else 1,
      if Truthy(p.perPage) then p.perPage.value else 10,
      p.categoryId))
  {
    var page := if Truthy(p.page) then p.page.value else 1;
    var perPage := if Truthy(p.perPage) then p.perPage.value else 10;
    assert IntParam(ps, "page", 1) == Some(page) by {
      if Truthy(p.page) { DecimalRoundTrip(p.page.value); }
    }
    assert IntParam(ps, "per_page", 10) == Some(perPage) by {
      if Truthy(p.perPage) { DecimalRoundTrip(p.perPage.value); }
    }
    if p.categoryId.Some? {
      DecimalRoundTrip(p.categoryId.value);
    }
  }

  /** Round trip through the query string: the server reads back the
      client's arguments, with a page or page size of 0 turned into the
      server's default. */
  lemma ServerReadsSearch(p: SearchParams)
    ensures ServerView(SearchQuery(p)) == Some(SearchRequest(
      p.query,
      p.exact == Some(true),
      if Truthy(p.page) then p.page.value else 1,
      if Truthy(p.perPage) then p.perPage.value else 10,
      p.categoryId))
  {
    ServerViewOf(SearchQuery(p), p);
  }
}

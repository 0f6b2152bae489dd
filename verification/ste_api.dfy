/**
  The item client of `ste.ts`: the file-type check in front of an upload,
  the query string of the admin item list, and the loop that fetches the
  whole list 500 items at a time.
 */
module SteApi {
  import opened Common
  import opened Text
  import Q = QueryParams
  import Pagination

  // ---------------------------------------------------------------------
  // File type
  // ---------------------------------------------------------------------

  const AllowedFileTypes: seq<string> := [
    "text/csv",
    "application/vnd.ms-excel",
    "application/vnd.openxmlformats-officedocument.spreadsheetml.sheet"
  ]

  const AllowedExtensions: seq<string> := [".csv", ".xlsx", ".xls"]

  /** JavaScript's `s.slice(start)`: a negative start counts from the end,
      and both ends clamp. */
  function JsSliceFrom(s: string, start: int): (r: string)
    ensures 0 <= start <= |s| ==> r == s[start..]
    ensures start < 0 ==> |r| == Pagination.Min(-start, |s|)
    ensures start < 0 ==> r == s[|s| - Pagination.Min(-start, |s|)..]
    ensures start > |s| ==> r == ""
  {
    if start < 0 then (if start + |s| < 0 then s else s[start + |s|..])
    else if start > |s| then ""
    else s[start..]
  }

  /** The "extension" `isValidFileType` compares: the lower-cased name from
      its last dot, or, with no dot at all, its last character. */
  function Extension(name: string): (ext: string)
    ensures '.' in name ==>
      && |ext| > 0 && ext[0] == '.' && HasSuffix(Lower(name), ext)
      && forall i :: 0 < i < |ext| ==> ext[i] != '.'
    ensures '.' !in name ==> ext == Lower(name)[|name| - Pagination.Min(1, |name|)..]
  {
    var low := Lower(name);
    var j := LastIndexOf(name, '.');
    LowerDot(name);
    if j >= 0 then
      assert low[j..][0] == '.';
      assert forall i :: 0 < i < |low[j..]| ==> low[j..][i] == low[j + i];
      JsSliceFrom(low, j)
    else
      JsSliceFrom(low, j)
  }

  /** `isValidFileType`: the MIME type is allowed, or the name ends, ASCII
      case ignored, in an allowed extension. */
  function IsValidFileType(name: string, mime: string): (ok: bool)
    ensures ok <==> mime in AllowedFileTypes || exists e :: e in AllowedExtensions && HasSuffix(Lower(name), e)
  {
    ExtensionAcceptedIffSuffix(name);
    mime in AllowedFileTypes || Extension(name) in AllowedExtensions
  }

  predicate HasSuffix(s: string, e: string) {
    |e| <= |s| && s[|s| - |e|..] == e
  }

  lemma LowerDot(s: string)
    ensures forall i :: 0 <= i < |s| ==> (Lower(s)[i] == '.' <==> s[i] == '.')
  {
  }

  /** Each allowed extension is a dot and then at least three characters
      that are not dots. */
  lemma ExtensionShape(e: string)
    requires e in AllowedExtensions
    ensures |e| >= 4 && e[0] == '.'
    ensures forall i :: 0 < i < |e| ==> e[i] != '.'
  {
  }

  lemma AcceptedExtensionIsSuffix(name: string)
    requires Extension(name) in AllowedExtensions
    ensures HasSuffix(Lower(name), Extension(name))
  {
    var low := Lower(name);
    var j := LastIndexOf(name, '.');
    var ext := Extension(name);
    ExtensionShape(ext);
    assert ext == JsSliceFrom(low, j);
    assert j >= 0 by {
      assert j < 0 ==> |ext| <= 1;
    }
    assert ext == low[j..];
    assert low[|low| - |ext|..] == low[j..];
  }

  lemma SuffixIsExtension(name: string, e: string)
    requires e in AllowedExtensions && HasSuffix(Lower(name), e)
    ensures Extension(name) == e
  {
    ExtensionShape(e);
    LowerDot(name);
    var low := Lower(name);
    var j := |low| - |e|;
    assert low[j] == e[0];
    assert name[j] == '.';
    forall i | j < i < |name| ensures name[i] != '.' {
      assert low[i] == e[i - j];
    }
    assert LastIndexOf(name, '.') == j;
    assert Extension(name) == JsSliceFrom(low, j) == low[j..];
  }

  /** The extension check accepts exactly the names that end, ignoring ASCII
      case, in `.csv`, `.xlsx` or `.xls`. */
  lemma ExtensionAcceptedIffSuffix(name: string)
    ensures Extension(name) in AllowedExtensions <==>
      exists e :: e in AllowedExtensions && HasSuffix(Lower(name), e)
  {
    if Extension(name) in AllowedExtensions {
      AcceptedExtensionIsSuffix(name);
    }
    if e :| e in AllowedExtensions && HasSuffix(Lower(name), e) {
      SuffixIsExtension(name, e);
    }
  }

  /** A name without a dot has a one-character "extension", so the file
      passes on its MIME type alone. */
  lemma NoDotNeedsFileType(name: string, mime: string)
    requires '.' !in name
    ensures IsValidFileType(name, mime) <==> mime in AllowedFileTypes
  {
    var low := Lower(name);
    assert LastIndexOf(name, '.') == -1;
    assert |Extension(name)| <= 1 by {
      assert Extension(name) == JsSliceFrom(low, -1);
    }
    assert forall e :: e in AllowedExtensions ==> |e| >= 4;
  }

  const InvalidFileMessage := "Неверный формат файла. Допустимые форматы: .csv, .xlsx"

  /** The request `uploadSte` sends: the file to `/api/admin/ste/upload`,
      with the stored token as bearer when there is one. */
  datatype UploadRequest = UploadRequest(path: string, fileName: string, authorization: Option<string>)

  /** `uploadSte` up to the request: an invalid file type fails before any
      request is made. */
  function UploadSte(name: string, mime: string, storedToken: Option<string>): (r: Result<UploadRequest, string>)
    ensures r.Err? <==> !IsValidFileType(name, mime)
    ensures r.Err? ==> r.error == InvalidFileMessage
    ensures r.Ok? ==> r.value.path == "/api/admin/ste/upload" && r.value.fileName == name
    ensures r.Ok? ==> (r.value.authorization.Some? <==> storedToken.Some? && |storedToken.value| > 0)
  {
    if !IsValidFileType(name, mime) then Err(InvalidFileMessage)
    else
      var auth := if storedToken.Some? && |storedToken.value| > 0 then Some("Bearer " + storedToken.value) else None;
      Ok(UploadRequest("/api/admin/ste/upload", name, auth))
  }

  // ---------------------------------------------------------------------
  // getSteList
  // ---------------------------------------------------------------------

  /** `if (cond) params.append(name, value)`. */
  function AppendWhen(u: Q.Params, cond: bool, name: string, value: string): (r: Q.Params)
    ensures name !in Q.Names(u) ==> Q.Get(r, name) == if cond then Some(value) else None
    ensures forall n :: n != name ==> Q.Get(r, n) == Q.Get(u, n)
    ensures forall n :: n in Q.Names(r) <==> n in Q.Names(u) || (cond && n == name)
  {
    if cond then Q.Append(u, name, value) else u
  }

  /** The four steps of `getSteList`, named; `limit` and `skip` default to
      100 and 0 when left out. */
  function SteListSteps(query: Option<string>, categoryIds: Option<seq<int>>, limit: Option<int>, skip: Option<int>)
    : seq<Q.Params>
  {
    var ids := categoryIds.GetOr([]);
    var u1 := AppendWhen([], query.Some? && |query.value| > 0, "q", query.GetOr(""));
    var u2 := AppendWhen(u1, |ids| > 0, "category_id", IntToDecimal(if |ids| > 0 then ids[0] else 0));
    var u3 := AppendWhen(u2, true, "limit", IntToDecimal(limit.GetOr(100)));
    var u4 := AppendWhen(u3, true, "skip", IntToDecimal(skip.GetOr(0)));
    [u1, u2, u3, u4]
  }

  /** The parameters `getSteList` appends, in order: `q` only when the
      search text is non-empty, only the first category id, and `limit` and
      `skip` always, defaulting to 100 and 0. */
  function SteListQuery(query: Option<string>, categoryIds: Option<seq<int>>, limit: Option<int>, skip: Option<int>)
    : (ps: Q.Params)
    ensures var ids := categoryIds.GetOr([]);
      && Q.Get(ps, "q") == (if query.Some? && |query.value| > 0 then query else None)
      && Q.Get(ps, "category_id") == (if |ids| > 0 then Some(IntToDecimal(ids[0])) else None)
      && Q.Get(ps, "limit") == Some(IntToDecimal(limit.GetOr(100)))
      && Q.Get(ps, "skip") == Some(IntToDecimal(skip.GetOr(0)))
    ensures forall n :: n in Q.Names(ps) ==> n in ["q", "category_id", "limit", "skip"]
  {
    SearchTextValue(query, categoryIds, limit, skip);
    CategoryValue(query, categoryIds, limit, skip);
    LimitValue(query, categoryIds, limit, skip);
    SkipValue(query, categoryIds, limit, skip);
    SteListNames(query, categoryIds, limit, skip);
    SteListSteps(query, categoryIds, limit, skip)[3]
  }

  /** What `get_stes` reads: the search text, one category, `skip`
      (default 0) and `limit` (default 100). */
  datatype ListRequest = ListRequest(q: Option<string>, categoryId: Option<int>, skip: int, limit: int)

  function ListServerView(ps: Q.Params): Option<ListRequest> {
    var category := Q.Get(ps, "category_id");
    var skip := match Q.Get(ps, "skip") case None => Some(0) case Some(s) => ParseDecimal(s);
    var limit := match Q.Get(ps, "limit") case None => Some(100) case Some(s) => ParseDecimal(s);
    if skip.None? || limit.None? || (category.Some? && ParseDecimal(category.value).None?) then None
    else
      var categoryId := if category.Some? then ParseDecimal(category.value) else None;
      Some(ListRequest(Q.Get(ps, "q"), categoryId, skip.value, limit.value))
  }

  // One lemma per parameter: each follows that name through the four steps.

  lemma SteListNames(query: Option<string>, categoryIds: Option<seq<int>>, limit: Option<int>, skip: Option<int>)
    ensures forall n :: n in Q.Names(SteListSteps(query, categoryIds, limit, skip)[3]) ==>
      n in ["q", "category_id", "limit", "skip"]
  {
    assert Q.Names([]) == [];
  }

  lemma SearchTextValue(query: Option<string>, categoryIds: Option<seq<int>>, limit: Option<int>, skip: Option<int>)
    ensures Q.Get(SteListSteps(query, categoryIds, limit, skip)[3], "q") ==
      (if query.Some? && |query.value| > 0 then query else None)
  {
    var u := SteListSteps(query, categoryIds, limit, skip);
    assert Q.Names([]) == [];
    assert "q" != "category_id" && "q" != "limit" && "q" != "skip";
  }

  lemma CategoryValue(query: Option<string>, categoryIds: Option<seq<int>>, limit: Option<int>, skip: Option<int>)
    ensures var ids := categoryIds.GetOr([]);
      Q.Get(SteListSteps(query, categoryIds, limit, skip)[3], "category_id") ==
      (if |ids| > 0 then Some(IntToDecimal(ids[0])) else None)
  {
    var u := SteListSteps(query, categoryIds, limit, skip);
    assert Q.Names([]) == [];
    assert "category_id" != "q" && "category_id" != "limit" && "category_id" != "skip";
    assert Q.Get(u[0], "category_id") == None;
  }

  lemma LimitValue(query: Option<string>, categoryIds: Option<seq<int>>, limit: Option<int>, skip: Option<int>)
    ensures Q.Get(SteListSteps(query, categoryIds, limit, skip)[3], "limit") == Some(IntToDecimal(limit.GetOr(100)))
  {
    var ids := categoryIds.GetOr([]);
    var u := SteListSteps(query, categoryIds, limit, skip);
    NoLimitYet(query.Some? && |query.value| > 0, query.GetOr(""),
      |ids| > 0, IntToDecimal(if |ids| > 0 then ids[0] else 0));
    LimitThenSkip(u[1], IntToDecimal(limit.GetOr(100)), IntToDecimal(skip.GetOr(0)));
  }

  lemma NoLimitYet(c1: bool, q: string, c2: bool, category: string)
    ensures "limit" !in Q.Names(AppendWhen(AppendWhen([], c1, "q", q), c2, "category_id", category))
  {
    assert Q.Names([]) == [];
    assert "limit" != "q" && "limit" != "category_id";
  }

  lemma LimitThenSkip(u: Q.Params, limit: string, skip: string)
    requires "limit" !in Q.Names(u)
    ensures Q.Get(AppendWhen(AppendWhen(u, true, "limit", limit), true, "skip", skip), "limit") == Some(limit)
  {
    assert "limit" != "skip";
  }

  lemma SkipValue(query: Option<string>, categoryIds: Option<seq<int>>, limit: Option<int>, skip: Option<int>)
    ensures Q.Get(SteListSteps(query, categoryIds, limit, skip)[3], "skip") == Some(IntToDecimal(skip.GetOr(0)))
  {
    var u := SteListSteps(query, categoryIds, limit, skip);
    assert Q.Names([]) == [];
    assert "skip" != "q" && "skip" != "category_id" && "skip" != "limit";
    assert Q.Get(u[2], "skip") == None;
  }

  /** Round trip through the query string: the server reads a non-empty
      search text, only the first category id, and the limit and skip
      always. */
  lemma ServerReadsSteList(query: Option<string>, categoryIds: Option<seq<int>>, limit: Option<int>, skip: Option<int>)
    ensures var ids := categoryIds.GetOr([]);
      ListServerView(SteListQuery(query, categoryIds, limit, skip)) == Some(ListRequest(
        if query.Some? && |query.value| > 0 then query else None,
        if |ids| > 0 then Some(ids[0]) else None,
        skip.GetOr(0),
        limit.GetOr(100)))
  {
    var ids := categoryIds.GetOr([]);
    DecimalRoundTrip(limit.GetOr(100));
    DecimalRoundTrip(skip.GetOr(0));
    if |ids| > 0 {
      DecimalRoundTrip(ids[0]);
    }
  }

  // ---------------------------------------------------------------------
  // getAllStes
  // ---------------------------------------------------------------------

  const BatchSize := 500

  /** One page of the admin list as the server cuts it: `limit` items from
      position `skip` of the full result. */
  function ServerBatch<T>(all: seq<T>, skip: nat): (batch: seq<T>)
    ensures batch == all[Pagination.Min(skip, |all|)..Pagination.Min(skip + BatchSize, |all|)]
  {
    Pagination.AdminPage(all, skip, BatchSize)
  }

  /** `getAllStes` against a server whose list is `all`: it asks for skip
      0, 500, 1000, ... until a batch comes back short, and returns the
      batches one after another, which is the whole list. */
  method GetAllStes<T>(all: seq<T>) returns (result: seq<T>, skips: seq<nat>)
    ensures result == all
    ensures |skips| == |all| / BatchSize + 1
    ensures forall i :: 0 <= i < |skips| ==> skips[i] == i * BatchSize
  {
    result := [];
    skips := [];
    var skip: nat := 0;
    var hasMore := true;
    while hasMore
      invariant skip == |skips| * BatchSize || !hasMore
      invariant forall i :: 0 <= i < |skips| ==> skips[i] == i * BatchSize
      invariant hasMore ==> skip <= |all| && result == all[..skip]
      invariant !hasMore ==> result == all && |skips| == |all| / BatchSize + 1
      decreases |all| - skip + (if hasMore then 1 else 0)
    {
      var batch := ServerBatch(all, skip);
      skips := skips + [skip];
      result := result + batch;
      if |batch| < BatchSize {
        hasMore := false;
        assert |all| < skip + BatchSize;
        assert all[..skip] + all[skip..] == all;
      } else {
        assert all[..skip] + all[skip..skip + BatchSize] == all[..skip + BatchSize];
        skip := skip + BatchSize;
      }
    }
  }
}

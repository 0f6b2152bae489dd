/**
  Page arithmetic of the list and search endpoints in `main.py`: Python's
  floor division and slicing, the page window of `search_public`'s fuzzy
  branch, its page count, and the `[skip:skip + limit]` slices of the admin
  lists.
 */
module Pagination {
  import opened Common

  function Min(a: int, b: int): int {
    if a <= b then a else b
  }

  /** Python's `a // b`: the quotient rounded towards minus infinity. */
  function FloorDiv(a: int, b: int): (q: int)
    requires b != 0
    ensures b > 0 ==> q * b <= a < q * b + b
    ensures b < 0 ==> q * b + b < a <= q * b
  {
    if b > 0 then a / b else (-a) / (-b)
  }

  /** Python's reading of one slice bound against a sequence of length
      `len`: a negative bound counts from the end, and both ends clamp. */
  function SliceBound(i: int, len: nat): (r: nat)
    ensures r <= len
    ensures 0 <= i <= len ==> r == i
    ensures i > len ==> r == len
    ensures i < 0 && i + len >= 0 ==> r == len + i
    ensures i + len < 0 ==> r == 0
  {
    if i < 0 then (if i + len < 0 then 0 else i + len)
    else if i > len then len
    else i
  }

  /** Python's `s[a:b]`. */
  function PySlice<T>(s: seq<T>, a: int, b: int): (r: seq<T>)
    ensures |r| <= |s|
    ensures 0 <= a <= b ==> r == s[Min(a, |s|)..Min(b, |s|)]
    ensures 0 <= b <= a ==> r == []
  {
    var lo := SliceBound(a, |s|);
    var hi := SliceBound(b, |s|);
    if lo < hi then s[lo..hi] else []
  }

  /** `a * b` as repeated addition, so that reasoning about page positions
      stays linear; `MulIsProduct` shows it is the product. */
  function Mul(a: int, b: int): (r: int)
    ensures a >= 0 && b >= 0 ==> r >= 0
    decreases if a < 0 then -a else a
  {
    if a == 0 then 0
    else if a > 0 then Mul(a - 1, b) + b
    else Mul(a + 1, b) - b
  }

  lemma {:induction false} MulIsProduct(a: int, b: int)
    ensures Mul(a, b) == a * b
    decreases if a < 0 then -a else a
  {
    if a > 0 {
      MulIsProduct(a - 1, b);
      assert (a - 1) * b + b == a * b;
    } else if a < 0 {
      MulIsProduct(a + 1, b);
      assert (a + 1) * b - b == a * b;
    }
  }

  /** `offset = (page - 1) * per_page`. */
  function Offset(page: int, perPage: int): int {
    Mul(page - 1, perPage)
  }

  /** `[id_to_ste[id] for id in ids if id in id_to_ste]`, as ids: the ids of
      items that loaded, in the given order. */
  function KeepLoaded(ids: seq<int>, loaded: set<int>): (r: seq<int>)
    ensures |r| <= |ids|
    ensures forall x :: x in r <==> x in ids && x in loaded
    decreases |ids|
  {
    if |ids| == 0 then []
    else
      var rest := KeepLoaded(ids[1..], loaded);
      assert forall x :: x in ids <==> x == ids[0] || x in ids[1..];
      if ids[0] in loaded then [ids[0]] + rest else rest
  }

  lemma {:induction false} KeepLoadedAppend(a: seq<int>, b: seq<int>, loaded: set<int>)
    ensures KeepLoaded(a + b, loaded) == KeepLoaded(a, loaded) + KeepLoaded(b, loaded)
    decreases |a|
  {
    if |a| > 0 {
      var ab := a + b;
      assert ab[0] == a[0] && ab[1..] == a[1..] + b;
      KeepLoadedAppend(a[1..], b, loaded);
      if a[0] in loaded {
        assert KeepLoaded(ab, loaded) == [a[0]] + KeepLoaded(a[1..] + b, loaded);
        assert KeepLoaded(a, loaded) == [a[0]] + KeepLoaded(a[1..], loaded);
      } else {
        assert KeepLoaded(ab, loaded) == KeepLoaded(a[1..] + b, loaded);
        assert KeepLoaded(a, loaded) == KeepLoaded(a[1..], loaded);
      }
    } else {
      assert a + b == b;
    }
  }

  /** The items of one page in the fuzzy branch of `search_public`, as ids:
      the slice `[offset:offset + per_page]` of the ranked ids, then the ids
      that loaded. */
  function SearchPageIds(ranked: seq<int>, loaded: set<int>, page: int, perPage: int): (items: seq<int>)
    ensures |items| <= |ranked|
    ensures forall x :: x in items ==> x in ranked && x in loaded
  {
    var offset := Offset(page, perPage);
    KeepLoaded(PySlice(ranked, offset, offset + perPage), loaded)
  }

  /** `total_pages`: the ceiling of `total / per_page`, and 1 when there is
      nothing; a zero page size with results raises `ZeroDivisionError`. */
  function TotalPages(total: nat, perPage: int): (r: Result<int, string>)
    ensures r.Err? <==> total > 0 && perPage == 0
    ensures total == 0 ==> r == Ok(1)
    ensures total > 0 && perPage > 0 ==> r.Ok? && (r.value - 1) * perPage < total <= r.value * perPage
    ensures total > 0 && perPage < 0 ==> r.Ok? && total + perPage - 1 <= r.value * perPage < total - 1
  {
    if total > 0 then
      if perPage == 0 then Err("integer division or modulo by zero")
      else Ok(FloorDiv(total + perPage - 1, perPage))
    else Ok(1)
  }

  /** The first `n` pages one after another. */
  function FirstPages(ranked: seq<int>, loaded: set<int>, n: nat, perPage: int): seq<int>
  {
    if n == 0 then [] else FirstPages(ranked, loaded, n - 1, perPage) + SearchPageIds(ranked, loaded, n, perPage)
  }

  /** Page `n` (from 1) is the `n`-th run of `perPage` ranked ids. */
  lemma PageIsWindow(ranked: seq<int>, loaded: set<int>, n: nat, perPage: int)
    requires n >= 1 && perPage >= 1
    ensures 0 <= Mul(n - 1, perPage) && Mul(n, perPage) == Mul(n - 1, perPage) + perPage
    ensures SearchPageIds(ranked, loaded, n, perPage) ==
      KeepLoaded(ranked[Min(Mul(n - 1, perPage), |ranked|)..Min(Mul(n, perPage), |ranked|)], loaded)
  {
  }

  /** The first `n` pages together show the loaded ids among the first
      `n * perPage` ranked ones. */
  lemma {:induction false} FirstPagesPrefix(ranked: seq<int>, loaded: set<int>, n: nat, perPage: int)
    requires perPage >= 1
    ensures FirstPages(ranked, loaded, n, perPage) == KeepLoaded(ranked[..Min(Mul(n, perPage), |ranked|)], loaded)
  {
    if n == 0 {
      assert ranked[..0] == [];
      assert KeepLoaded([], loaded) == [];
    } else {
      FirstPagesPrefix(ranked, loaded, n - 1, perPage);
      PageIsWindow(ranked, loaded, n, perPage);
      var lo := Min(Mul(n - 1, perPage), |ranked|);
      var hi := Min(Mul(n, perPage), |ranked|);
      KeepLoadedSplit(ranked, lo, hi, loaded);
    }
  }

  lemma KeepLoadedSplit(ranked: seq<int>, lo: nat, hi: nat, loaded: set<int>)
    requires lo <= hi <= |ranked|
    ensures KeepLoaded(ranked[..hi], loaded) == KeepLoaded(ranked[..lo], loaded) + KeepLoaded(ranked[lo..hi], loaded)
  {
    assert ranked[..hi] == ranked[..lo] + ranked[lo..hi];
    KeepLoadedAppend(ranked[..lo], ranked[lo..hi], loaded);
  }

  /** Paging through `total_pages` pages shows every loaded match once, in
      rank order. */
  lemma AllPagesShowEveryMatch(ranked: seq<int>, loaded: set<int>, perPage: int)
    requires perPage >= 1
    ensures TotalPages(|ranked|, perPage).Ok?
    ensures FirstPages(ranked, loaded, TotalPages(|ranked|, perPage).value, perPage) == KeepLoaded(ranked, loaded)
  {
    var n := TotalPages(|ranked|, perPage).value;
    assert n >= 1;
    FirstPagesPrefix(ranked, loaded, n, perPage);
    MulIsProduct(n, perPage);
    assert ranked[..|ranked|] == ranked;
  }

  /** The fuzzy branch of the admin lists: the slice `[skip:skip + limit]`
      of the ranked results. */
  function AdminPage<T>(results: seq<T>, skip: int, limit: int): (page: seq<T>)
    ensures 0 <= skip && 0 <= limit ==> page == results[Min(skip, |results|)..Min(skip + limit, |results|)]
    ensures 0 <= limit ==> |page| <= limit
  {
    PySlice(results, skip, skip + limit)
  }

  // ---------------------------------------------------------------------
  // Pages before the first
  // ---------------------------------------------------------------------

  /** The part of the ranking that page `page` covers: positions
      `[(page - 1) * per_page, page * per_page)`, cut to the ranking. */
  function Window(ranked: seq<int>, page: int, perPage: int): seq<int>
    requires perPage >= 0
  {
    var lo := Offset(page, perPage);
    var hi := lo + perPage;
    var a := if lo < 0 then 0 else Min(lo, |ranked|);
    var b := if hi < 0 then 0 else Min(hi, |ranked|);
    ranked[a..b]
  }

  /** `page=-1`, `per_page=10` over 25 ranked ids: the offset is -20 and the
      slice `[-20:-10]` counts from the end, so the page shows the ids ranked
      5 to 14, none of which lies in the page's own window. */
  lemma NegativePageShowsMiddleOfRanking()
    ensures var ranked := seq(25, i => i);
      && SearchPageIds(ranked, set x | x in ranked, -1, 10) == ranked[5..15]
      && Window(ranked, -1, 10) == []
  {
    var ranked := seq(25, i => i);
    assert PySlice(ranked, -20, -10) == ranked[5..15];
    var loaded := set x | x in ranked;
    assert forall i :: 0 <= i < 10 ==> ranked[5..15][i] in loaded;
    KeepAllLoaded(ranked[5..15], loaded);
  }

  lemma {:induction false} KeepAllLoaded(ids: seq<int>, loaded: set<int>)
    requires forall i :: 0 <= i < |ids| ==> ids[i] in loaded
    ensures KeepLoaded(ids, loaded) == ids
    decreases |ids|
  {
    if |ids| > 0 {
      assert forall i :: 0 <= i < |ids| - 1 ==> ids[1..][i] == ids[i + 1];
      KeepAllLoaded(ids[1..], loaded);
      assert ids == [ids[0]] + ids[1..];
    }
  }

  /** The page as evidently intended: a page number below 1 holds nothing,
      and every page shows the loaded ids of its own window. */
  function CheckedSearchPageIds(ranked: seq<int>, loaded: set<int>, page: int, perPage: int): (items: seq<int>)
    requires perPage >= 0
    ensures items == KeepLoaded(Window(ranked, page, perPage), loaded)
    ensures page < 1 ==> items == []
    ensures page >= 1 ==> items == SearchPageIds(ranked, loaded, page, perPage)
  {
    if page < 1 then
      assert Offset(page, perPage) + perPage <= 0 by {
        MulIsProduct(page - 1, perPage);
        assert Offset(page, perPage) + perPage == page * perPage;
        assert page * perPage <= 0;
      }
      []
    else
      assert Offset(page, perPage) >= 0;
      SearchPageIds(ranked, loaded, page, perPage)
  }
}

/**
  `get_categories` in `main.py`: the categories are the distinct
  (category_id, category_name) pairs of the `stes` table, without the pairs
  whose id is null, each named by its name or, failing that, by its id
  written in decimal.
 */
module Categories {
  import opened Common
  import opened Text

  /** One row of `SELECT DISTINCT category_id, category_name FROM stes`. */
  datatype Pair = Pair(id: Option<int>, name: Option<string>)

  /** One entry of the response. */
  datatype Category = Category(id: int, name: string)

  predicate DistinctPairs(ps: seq<Pair>) {
    forall i, j :: 0 <= i < j < |ps| ==> ps[i] != ps[j]
  }

  /** `DISTINCT`: the pairs without repetitions, each at its first place. */
  function Dedup(ps: seq<Pair>): (r: seq<Pair>)
    ensures DistinctPairs(r)
    ensures forall p :: p in r <==> p in ps
    ensures |r| <= |ps|
    decreases |ps|
  {
    if |ps| == 0 then []
    else
      var prev := Dedup(ps[..|ps| - 1]);
      var p := ps[|ps| - 1];
      assert ps == ps[..|ps| - 1] + [p];
      if p in prev then prev else prev + [p]
  }

  /** `cname or str(cid)`: an empty or missing name falls back to the id. */
  function DisplayName(id: int, name: Option<string>): (s: string)
    ensures |s| > 0
    ensures name.Some? && |name.value| > 0 ==> s == name.value
    ensures name.None? || |name.value| == 0 ==> ParseDecimal(s) == Some(id)
  {
    if name.Some? && |name.value| > 0 then name.value
    else
      DecimalRoundTrip(id);
      IntToDecimal(id)
  }

  /** The loop of `get_categories` over the distinct pairs. */
  function CategoryList(rows: seq<Pair>): (r: seq<Category>)
    ensures |r| <= |rows|
    ensures forall c :: c in r ==> |c.name| > 0 && exists n :: Pair(Some(c.id), n) in rows && c.name == DisplayName(c.id, n)
    ensures forall i :: 0 <= i < |rows| && rows[i].id.Some? ==>
      Category(rows[i].id.value, DisplayName(rows[i].id.value, rows[i].name)) in r
    decreases |rows|
  {
    if |rows| == 0 then []
    else
      var init := rows[..|rows| - 1];
      var prev := CategoryList(init);
      var p := rows[|rows| - 1];
      assert rows == init + [p];
      if p.id.None? then prev
      else prev + [Category(p.id.value, DisplayName(p.id.value, p.name))]
  }

  /** The loop is a filter: the pairs list part by part, a pair with a
      null id lists nothing, and any other pair lists one category. */
  lemma {:induction false} CategoryListIsFilter(a: seq<Pair>, b: seq<Pair>)
    ensures CategoryList(a + b) == CategoryList(a) + CategoryList(b)
    ensures |a| == 1 ==>
      var p := a[0];
      CategoryList(a) == if p.id.None? then [] else [Category(p.id.value, DisplayName(p.id.value, p.name))]
  {
    CategoryListAppend(a, b);
    if |a| == 1 {
      CategoryListOne(a[0]);
      assert a == [a[0]];
    }
  }

  lemma {:induction false} CategoryListAppend(a: seq<Pair>, b: seq<Pair>)
    ensures CategoryList(a + b) == CategoryList(a) + CategoryList(b)
    decreases |b|
  {
    if |b| == 0 {
      assert a + b == a;
    } else {
      var n := |b| - 1;
      assert (a + b)[..|a + b| - 1] == a + b[..n];
      assert (a + b)[|a + b| - 1] == b[n];
      CategoryListAppend(a, b[..n]);
    }
  }

  lemma CategoryListOne(p: Pair)
    ensures CategoryList([p]) == if p.id.None? then [] else [Category(p.id.value, DisplayName(p.id.value, p.name))]
  {
    assert [p][..0] == [];
  }

  /** The response of `get_categories`: every category names an id of the
      table under the display name of one of its pairs, and every pair with
      an id is listed under its display name. */
  function GetCategories(table: seq<Pair>): (r: seq<Category>)
    ensures |r| <= |table|
    ensures forall c :: c in r ==>
      exists n :: Pair(Some(c.id), n) in table && c.name == DisplayName(c.id, n)
    ensures forall p :: p in table && p.id.Some? ==>
      Category(p.id.value, DisplayName(p.id.value, p.name)) in r
  {
    var d := Dedup(table);
    forall p | p in table && p.id.Some?
      ensures Category(p.id.value, DisplayName(p.id.value, p.name)) in CategoryList(d)
    {
      var i :| 0 <= i < |d| && d[i] == p;
    }
    CategoryList(d)
  }

  /** Two different rows are both kept by `DISTINCT`, in order. */
  lemma DedupTwo(a: Pair, b: Pair)
    requires a != b
    ensures Dedup([a, b]) == [a, b]
  {
    var t := [a, b];
    assert t[..1] == [a];
    assert [a][..0] == [];
    assert Dedup([a]) == [a];
  }

  /** De-duplication is by pair, so an id stored both without a name and
      with its own decimal as name is listed twice, under the same name. */
  lemma SameIdListedTwice(id: int)
    ensures var name := IntToDecimal(id);
      GetCategories([Pair(Some(id), None), Pair(Some(id), Some(name))]) ==
        [Category(id, name), Category(id, name)]
  {
    var name := IntToDecimal(id);
    var a := Pair(Some(id), None);
    var b := Pair(Some(id), Some(name));
    var t := [a, b];
    DedupTwo(a, b);
    assert DisplayName(id, None) == name;
    assert |name| > 0;
    assert DisplayName(id, Some(name)) == name;
    assert t[..1] == [a];
    assert [a][..0] == [];
    assert CategoryList([a]) == [Category(id, name)];
  }
}

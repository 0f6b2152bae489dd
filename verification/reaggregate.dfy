/**
  The re-aggregation steps of `ml_insert.py`: loading items ("STE" rows),
  clustering their titles, merging the labels onto the loaded rows as card
  ids, computing the changeset against the stored card ids, and applying it.

  The `stes` table is a sequence of rows (its scan order is the order a query
  without ORDER BY returns them in). Each pandas DataFrame becomes a sequence
  of records. A stored `card_id` is an `Option<int>`; inside the DataFrame
  it is an `int` where 0 stands for "no card", as in the source.
 */
module Reaggregate {
  import opened Common
  import opened ModelCache

  /** A row of the `stes` table, reduced to the columns the pipeline reads. */
  datatype Ste = Ste(
    id: int,
    cardId: Option<int>,
    title: Option<string>,
    features: Option<map<string, string>>)

  type Table = seq<Ste>

  /** `stes.id` is the primary key. */
  predicate UniqueIds(t: Table) {
    forall i, j :: 0 <= i < j < |t| ==> t[i].id != t[j].id
  }

  /** The `if ste_ids:` filter: an empty (or absent) id list selects every row. */
  predicate Selected(filter: seq<int>, id: int) {
    |filter| == 0 || id in filter
  }

  // ---------------------------------------------------------------------
  // Load: get_all_stes_from_db
  // ---------------------------------------------------------------------

  /** A row of the working DataFrame: (id, card_id, title, features). */
  datatype Row = Row(id: int, cardId: int, title: Option<string>, features: map<string, string>)

  predicate UniqueRowIds(rows: seq<Row>) {
    forall i, j :: 0 <= i < j < |rows| ==> rows[i].id != rows[j].id
  }

  /** One loaded row: a null card becomes 0 and null features become `{}`. */
  function LoadRow(s: Ste): (r: Row)
    ensures r.id == s.id && r.title == s.title
    ensures s.cardId.None? ==> r.cardId == 0
    ensures s.cardId.Some? ==> r.cardId == s.cardId.value
    ensures s.features.None? ==> r.features == map[]
    ensures s.features.Some? ==> r.features == s.features.value
  {
    Row(s.id, s.cardId.GetOr(0), s.title, s.features.GetOr(map[]))
  }

  /** The ids of the rows the filter selects. */
  function SelectedIds(t: Table, filter: seq<int>): set<int> {
    set i | 0 <= i < |t| && Selected(filter, t[i].id) :: t[i].id
  }

  /** `get_all_stes_from_db`: the selected rows, in table order; an empty
      filter loads the whole table. */
  function Load(t: Table, filter: seq<int>): (rows: seq<Row>)
    ensures |rows| <= |t|
    ensures |filter| == 0 ==> |rows| == |t| && forall i :: 0 <= i < |t| ==> rows[i] == LoadRow(t[i])
    ensures forall k :: 0 <= k < |rows| ==> Selected(filter, rows[k].id)
    ensures forall i :: 0 <= i < |t| && Selected(filter, t[i].id) ==> LoadRow(t[i]) in rows
    decreases |t|
  {
    if |t| == 0 then []
    else
      var rest := Load(t[1..], filter);
      assert forall i :: 1 <= i < |t| ==> t[i] == t[1..][i - 1];
      if Selected(filter, t[0].id) then [LoadRow(t[0])] + rest else rest
  }

  /** Loading is a filter: a table loads part by part, and a single row
      loads as its `LoadRow` image exactly when the filter selects it. */
  lemma {:induction false} LoadIsFilter(a: Table, b: Table, filter: seq<int>)
    ensures Load(a + b, filter) == Load(a, filter) + Load(b, filter)
    ensures |a| == 1 ==> Load(a, filter) == if Selected(filter, a[0].id) then [LoadRow(a[0])] else []
    decreases |a|
  {
    if |a| == 0 {
      assert a + b == b;
    } else {
      assert (a + b)[0] == a[0];
      assert (a + b)[1..] == a[1..] + b;
      LoadIsFilter(a[1..], b, filter);
    }
  }

  /** Every loaded row is a selected row of the table, and loading a table
      with unique ids gives rows with unique ids. */
  lemma {:induction false} LoadedRowsComeFromTable(t: Table, filter: seq<int>)
    ensures forall k :: 0 <= k < |Load(t, filter)| ==> Load(t, filter)[k].id in SelectedIds(t, filter)
    ensures UniqueIds(t) ==> UniqueRowIds(Load(t, filter))
    decreases |t|
  {
    if |t| > 0 {
      var t1 := t[1..];
      LoadedRowsComeFromTable(t1, filter);
      assert forall i :: 1 <= i < |t| ==> t[i] == t1[i - 1];
      assert SelectedIds(t1, filter) <= SelectedIds(t, filter) by {
        forall x | x in SelectedIds(t1, filter) ensures x in SelectedIds(t, filter) {
          var i :| 0 <= i < |t1| && Selected(filter, t1[i].id) && t1[i].id == x;
          assert t[i + 1] == t1[i];
        }
      }
      if UniqueIds(t) {
        assert UniqueIds(t1);
        assert t[0].id !in SelectedIds(t1, filter);
      }
    }
  }

  // ---------------------------------------------------------------------
  // Cluster: run_ml_clustering
  // ---------------------------------------------------------------------

  /** HDBSCAN's label for a point that belongs to no cluster. */
  const Noise: int := -1

  /** The DataFrame returned by clustering: (id, title, features, cluster_id). */
  datatype ClusterRow = ClusterRow(id: int, title: Option<string>, features: map<string, string>, clusterId: int)

  /** Encoding the titles and running HDBSCAN on the embeddings, as one
      oracle from the title list to either one label per title or the
      message of a `RuntimeError` raised by `encode` or `fit_predict`. */
  type Labeler = seq<string> -> Result<seq<int>, string>

  /** The labels a labeler gives the titles, none when it raises. */
  function Labels(labeler: Labeler, titles: seq<string>): seq<int> {
    match labeler(titles)
    case Ok(labels) => labels
    case Err(_) => []
  }

  /** What HDBSCAN's `fit_predict` promises: one label per input, each a
      cluster number or `Noise`. */
  predicate LabelsFit(labels: seq<int>, n: nat) {
    |labels| == n && forall i :: 0 <= i < n ==> labels[i] >= Noise
  }

  /** A labeler that, when it does not raise on the titles of `rows`, keeps
      `fit_predict`'s promise for them. */
  predicate FitsRows(labeler: Labeler, rows: seq<Row>) {
    |rows| > 0 && labeler(Titles(rows)).Ok? ==> LabelsFit(Labels(labeler, Titles(rows)), |rows|)
  }

  /** `left_df['title'].fillna('')`. */
  function Titles(rows: seq<Row>): (titles: seq<string>)
    ensures |titles| == |rows|
    ensures forall i :: 0 <= i < |rows| ==> titles[i] == rows[i].title.GetOr("")
  {
    seq(|rows|, i requires 0 <= i < |rows| => rows[i].title.GetOr(""))
  }

  /** `run_ml_clustering`: the cache after the call and either the labelled
      rows or the message of a `RuntimeError`, raised by the model load or
      by the clustering itself. A model loaded before the clustering
      raises stays cached. */
  function RunClustering(
    rows: seq<Row>, cache: Cache, modelName: string,
    attempt: Result<EmbeddingModel, string>, labeler: Labeler)
    : (out: (Cache, Result<seq<ClusterRow>, string>))
    requires FitsRows(labeler, rows)
    ensures |rows| == 0 ==> out == (cache, Ok([]))
    ensures |rows| > 0 ==> out.0 == GetEmbeddingModel(cache, modelName, attempt).0
    ensures out.1.Ok? <==> |rows| == 0 || ((cache.Some? || attempt.Ok?) && labeler(Titles(rows)).Ok?)
    ensures |rows| > 0 && cache.None? && attempt.Err? ==>
      out.1 == Err(LoadErrorMessage(modelName, attempt.error))
    ensures |rows| > 0 && (cache.Some? || attempt.Ok?) && labeler(Titles(rows)).Err? ==>
      out.1 == Err(labeler(Titles(rows)).error)
    ensures out.1.Ok? ==> |out.1.value| == |rows|
    ensures out.1.Ok? ==> forall i :: 0 <= i < |rows| ==>
      && out.1.value[i].id == rows[i].id
      && out.1.value[i].clusterId == Labels(labeler, Titles(rows))[i]
      && out.1.value[i].clusterId >= Noise
  {
    if |rows| == 0 then (cache, Ok([]))
    else
      var (cache', model) := GetEmbeddingModel(cache, modelName, attempt);
      match model
      case Err(e) => (cache', Err(e))
      case Ok(_) =>
        match labeler(Titles(rows))
        case Err(e) => (cache', Err(e))
        case Ok(labels) =>
          (cache', Ok(seq(|rows|, i requires 0 <= i < |rows| =>
            ClusterRow(rows[i].id, rows[i].title, rows[i].features, labels[i]))))
  }

  // ---------------------------------------------------------------------
  // Merge: merge_cluster_to_card
  // ---------------------------------------------------------------------

  /** The label the left join finds for `id`: the first clustered row with
      that id, if any. */
  function LabelOf(right: seq<ClusterRow>, id: int): (r: Option<int>)
    ensures r.None? <==> forall k :: 0 <= k < |right| ==> right[k].id != id
    ensures r.Some? ==> exists k :: 0 <= k < |right| && right[k].id == id && right[k].clusterId == r.value
  {
    if |right| == 0 then None
    else if right[0].id == id then Some(right[0].clusterId)
    else
      var r := LabelOf(right[1..], id);
      assert r.Some? ==> exists k :: 1 <= k < |right| && right[k].id == id && right[k].clusterId == r.value by {
        if r.Some? {
          var k :| 0 <= k < |right[1..]| && right[1..][k].id == id && right[1..][k].clusterId == r.value;
          assert right[k + 1] == right[1..][k];
        }
      }
      assert r.None? ==> forall k :: 1 <= k < |right| ==> right[k].id != id by {
        if r.None? {
          forall k | 1 <= k < |right| ensures right[k].id != id {
            assert right[k] == right[1..][k - 1];
          }
        }
      }
      r
  }

  /** The card id `merge_cluster_to_card` gives a row: its label with noise
      turned into 0, or its old card id when it has no label. */
  function MergedCard(oldCard: int, found: Option<int>): (card: int)
    ensures found.None? ==> card == oldCard
    ensures found == Some(Noise) ==> card == 0
    ensures found.Some? && found.value != Noise ==> card == found.value
  {
    match found
    case None => oldCard
    case Some(l) => if l == Noise then 0 else l
  }

  /** `merge_cluster_to_card`. */
  function Merge(left: seq<Row>, right: seq<ClusterRow>): (merged: seq<Row>)
    ensures |right| == 0 ==> merged == left
    ensures |merged| == |left|
    ensures forall i :: 0 <= i < |left| ==>
      merged[i] == left[i].(cardId := MergedCard(left[i].cardId, LabelOf(right, left[i].id)))
  {
    if |right| == 0 then
      left
    else
      seq(|left|, i requires 0 <= i < |left| =>
        left[i].(cardId := MergedCard(left[i].cardId, LabelOf(right, left[i].id))))
  }

  // ---------------------------------------------------------------------
  // Diff and write: update_stes_in_db
  // ---------------------------------------------------------------------

  /** One entry of `updates`: a row id and the card id to store. */
  datatype Change = Change(id: int, cardId: Option<int>)

  predicate UniqueChangeIds(cs: seq<Change>) {
    forall i, j :: 0 <= i < j < |cs| ==> cs[i].id != cs[j].id
  }

  /** `int(card_id) if card_id != 0 else None`: 0 is stored as no card. */
  function Persisted(card: int): (v: Option<int>)
    ensures v.None? <==> card == 0
    ensures v.Some? ==> v.value == card
  {
    if card != 0 then Some(card) else None
  }

  /** The card id each merged row asks to have stored. */
  function Proposals(merged: seq<Row>): (ps: seq<Change>)
    ensures |ps| == |merged|
    ensures forall i :: 0 <= i < |merged| ==> ps[i] == Change(merged[i].id, Persisted(merged[i].cardId))
    ensures UniqueRowIds(merged) ==> UniqueChangeIds(ps)
  {
    seq(|merged|, i requires 0 <= i < |merged| => Change(merged[i].id, Persisted(merged[i].cardId)))
  }

  /** `{row.id: row.card_id for row in current_data}` over the selected rows:
      later rows win, as in a dict comprehension. */
  function CurrentMap(t: Table, filter: seq<int>): (m: map<int, Option<int>>)
    ensures m.Keys == SelectedIds(t, filter)
    decreases |t|
  {
    if |t| == 0 then map[]
    else
      var m := CurrentMap(t[..|t| - 1], filter);
      var last := t[|t| - 1];
      assert forall i :: 0 <= i < |t| - 1 ==> t[..|t| - 1][i] == t[i];
      if Selected(filter, last.id) then m[last.id := last.cardId] else m
  }

  /** In a table with unique ids, the current map holds each selected row's
      stored card id. */
  lemma {:induction false} CurrentMapValue(t: Table, filter: seq<int>, i: nat)
    requires UniqueIds(t)
    requires i < |t| && Selected(filter, t[i].id)
    ensures t[i].id in CurrentMap(t, filter)
    ensures CurrentMap(t, filter)[t[i].id] == t[i].cardId
    decreases |t|
  {
    if i < |t| - 1 {
      var p := t[..|t| - 1];
      assert p[i] == t[i];
      assert UniqueIds(p);
      CurrentMapValue(p, filter, i);
      assert t[|t| - 1].id != t[i].id;
    }
  }

  /** `current_map.get(ste_id)`: Python gives `None` both for a missing id and
      for a stored null, and the source compares the two alike. */
  function Stored(current: map<int, Option<int>>, id: int): (v: Option<int>)
    ensures id in current ==> v == current[id]
    ensures id !in current ==> v.None?
  {
    if id in current then current[id] else None
  }

  /** The `updates` list: exactly the proposals whose card id differs from
      the stored one, in proposal order. */
  function Diff(current: map<int, Option<int>>, proposals: seq<Change>): (updates: seq<Change>)
    ensures |updates| <= |proposals|
    ensures forall u :: u in updates ==> u in proposals && Stored(current, u.id) != u.cardId
    ensures forall p :: p in proposals && Stored(current, p.id) != p.cardId ==> p in updates
    decreases |proposals|
  {
    if |proposals| == 0 then []
    else
      var rest := Diff(current, proposals[1..]);
      var p := proposals[0];
      assert forall q :: q in proposals ==> q == p || q in proposals[1..];
      if Stored(current, p.id) != p.cardId then [p] + rest else rest
  }

  /** The diff is a filter: proposals diff part by part, and a single
      proposal is kept exactly when it differs from the stored card. */
  lemma DiffIsFilter(current: map<int, Option<int>>, a: seq<Change>, b: seq<Change>)
    ensures Diff(current, a + b) == Diff(current, a) + Diff(current, b)
    ensures |a| == 1 ==> Diff(current, a) == if Stored(current, a[0].id) != a[0].cardId then [a[0]] else []
  {
    DiffIsKept(current, a + b);
    DiffIsKept(current, a);
    DiffIsKept(current, b);
    KeptAppend(current, a, b);
    if |a| == 1 {
      assert a[1..] == [];
    }
  }

  /** `Diff` without its contract, so that reasoning about concatenations
      does not drag the contract along. */
  function Kept(current: map<int, Option<int>>, ps: seq<Change>): seq<Change>
    decreases |ps|
  {
    if |ps| == 0 then []
    else (if Stored(current, ps[0].id) != ps[0].cardId then [ps[0]] else []) + Kept(current, ps[1..])
  }

  lemma {:induction false} DiffIsKept(current: map<int, Option<int>>, ps: seq<Change>)
    ensures Diff(current, ps) == Kept(current, ps)
    decreases |ps|
  {
    if |ps| > 0 {
      DiffIsKept(current, ps[1..]);
    }
  }

  lemma {:induction false} KeptAppend(current: map<int, Option<int>>, a: seq<Change>, b: seq<Change>)
    ensures Kept(current, a + b) == Kept(current, a) + Kept(current, b)
    decreases |a|
  {
    if |a| == 0 {
      assert a + b == b;
    } else {
      assert (a + b)[0] == a[0] && (a + b)[1..] == a[1..] + b;
      KeptAppend(current, a[1..], b);
    }
  }

  /** The changeset `update_stes_in_db` computes for the merged rows: the
      proposals whose card differs from the one stored just before. */
  function Changeset(t: Table, merged: seq<Row>, filter: seq<int>): (updates: seq<Change>)
    ensures |updates| <= |merged|
    ensures forall u :: u in updates ==>
      u in Proposals(merged) && Stored(CurrentMap(t, filter), u.id) != u.cardId
    ensures forall p :: p in Proposals(merged) && Stored(CurrentMap(t, filter), p.id) != p.cardId ==>
      p in updates
  {
    if |merged| == 0 then [] else Diff(CurrentMap(t, filter), Proposals(merged))
  }

  /** One `UPDATE stes SET card_id = … WHERE id = …`; an id with no row
      changes nothing. */
  function ApplyOne(t: Table, u: Change): (t': Table)
    ensures |t'| == |t|
    ensures forall i :: 0 <= i < |t| && t[i].id == u.id ==> t'[i] == t[i].(cardId := u.cardId)
    ensures forall i :: 0 <= i < |t| && t[i].id != u.id ==> t'[i] == t[i]
  {
    seq(|t|, i requires 0 <= i < |t| => if t[i].id == u.id then t[i].(cardId := u.cardId) else t[i])
  }

  /** The updates applied one after another, in order. */
  function ApplyAll(t: Table, us: seq<Change>): (t': Table)
    ensures |t'| == |t|
    ensures forall i :: 0 <= i < |t| ==> t'[i] == t[i].(cardId := t'[i].cardId)
    decreases |us|
  {
    if |us| == 0 then t else ApplyAll(ApplyOne(t, us[0]), us[1..])
  }

  /** The value the last update to `id` writes, if any update names it. */
  function LastWrite(us: seq<Change>, id: int): (r: Option<Option<int>>)
    ensures r.None? <==> forall k :: 0 <= k < |us| ==> us[k].id != id
    ensures r.Some? ==> Change(id, r.value) in us
    decreases |us|
  {
    if |us| == 0 then None
    else
      match LastWrite(us[1..], id)
      case Some(v) => Some(v)
      case None =>
        assert forall k :: 1 <= k < |us| ==> us[k] == us[1..][k - 1];
        if us[0].id == id then Some(us[0].cardId) else None
  }

  /** Applying a list of updates leaves each row with the card id of the last
      update naming it, and every row no update names untouched. */
  lemma {:induction false} ApplyAllLastWriteWins(t: Table, us: seq<Change>, i: nat)
    requires i < |t|
    ensures LastWrite(us, t[i].id).None? ==> ApplyAll(t, us)[i] == t[i]
    ensures LastWrite(us, t[i].id).Some? ==> ApplyAll(t, us)[i].cardId == LastWrite(us, t[i].id).value
    decreases |us|
  {
    if |us| > 0 {
      ApplyAllLastWriteWins(ApplyOne(t, us[0]), us[1..], i);
    }
  }

  /** Writing the diff of `ps` leaves every proposal's id holding the
      proposed card id. */
  lemma WriteSettlesProposal(t: Table, filter: seq<int>, ps: seq<Change>, p: Change)
    requires UniqueIds(t)
    requires UniqueChangeIds(ps)
    requires p in ps && p.id in SelectedIds(t, filter)
    ensures Stored(CurrentMap(ApplyAll(t, Diff(CurrentMap(t, filter), ps)), filter), p.id) == p.cardId
  {
    var us := Diff(CurrentMap(t, filter), ps);
    var t1 := ApplyAll(t, us);
    var i :| 0 <= i < |t| && Selected(filter, t[i].id) && t[i].id == p.id;
    WrittenRowHolds(t, filter, ps, p, i);
    ApplyAllKeepsUniqueIds(t, us);
    assert t1[i].id == p.id;
    CurrentMapValue(t1, filter, i);
  }

  /** Writing the diff of unique-id proposals leaves a selected row
      holding the card its proposal names. */
  lemma WrittenRowHolds(t: Table, filter: seq<int>, ps: seq<Change>, p: Change, i: nat)
    requires UniqueIds(t)
    requires UniqueChangeIds(ps)
    requires p in ps
    requires i < |t| && t[i].id == p.id && Selected(filter, t[i].id)
    ensures ApplyAll(t, Diff(CurrentMap(t, filter), ps))[i].cardId == p.cardId
  {
    var us := Diff(CurrentMap(t, filter), ps);
    CurrentMapValue(t, filter, i);
    ApplyAllLastWriteWins(t, us, i);
    match LastWrite(us, p.id)
    case None =>
      assert p !in us;
    case Some(v) =>
      var k :| 0 <= k < |ps| && ps[k] == Change(p.id, v);
      var kp :| 0 <= kp < |ps| && ps[kp] == p;
      assert k == kp;
  }

  /** Writes change card ids only, so ids stay unique. */
  lemma ApplyAllKeepsUniqueIds(t: Table, us: seq<Change>)
    requires UniqueIds(t)
    ensures UniqueIds(ApplyAll(t, us))
  {
    var t1 := ApplyAll(t, us);
    forall a, b | 0 <= a < b < |t1| ensures t1[a].id != t1[b].id {
      assert t1[a].id == t[a].id && t1[b].id == t[b].id;
    }
  }

  /** Proposals that all agree with the stored card ids produce no update. */
  lemma DiffOfAgreeingIsEmpty(current: map<int, Option<int>>, ps: seq<Change>)
    requires forall p :: p in ps ==> Stored(current, p.id) == p.cardId
    ensures Diff(current, ps) == []
  {
  }

  /** Re-diffing the same proposals against the table after the write finds
      nothing left to do. */
  lemma {:induction false} DiffAfterWriteIsEmpty(t: Table, filter: seq<int>, ps: seq<Change>)
    requires UniqueIds(t)
    requires UniqueChangeIds(ps)
    requires forall p :: p in ps ==> p.id in SelectedIds(t, filter)
    ensures Diff(CurrentMap(ApplyAll(t, Diff(CurrentMap(t, filter), ps)), filter), ps) == []
  {
    var t1 := ApplyAll(t, Diff(CurrentMap(t, filter), ps));
    forall p | p in ps
      ensures Stored(CurrentMap(t1, filter), p.id) == p.cardId
    {
      WriteSettlesProposal(t, filter, ps, p);
    }
    DiffOfAgreeingIsEmpty(CurrentMap(t1, filter), ps);
  }
}

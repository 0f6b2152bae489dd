/**
  The batched write-back of `update_stes_in_db`, the orchestration of
  `run_ml_pipeline`, and the two re-aggregation endpoints of `main.py` that
  call it.
 */
module Pipeline {
  import opened Common
  import opened ModelCache
  import opened Reaggregate

  /** Rows written per batch. */
  const BatchSize: nat := 500

  /** The batches laid end to end. */
  function Concat(bs: seq<seq<Change>>): seq<Change>
    decreases |bs|
  {
    if |bs| == 0 then [] else Concat(bs[..|bs| - 1]) + bs[|bs| - 1]
  }

  /** Applying two lists in turn is applying their concatenation. */
  lemma {:induction false} ApplyAllAppend(t: Table, a: seq<Change>, b: seq<Change>)
    ensures ApplyAll(t, a + b) == ApplyAll(ApplyAll(t, a), b)
    decreases |a|
  {
    if |a| > 0 {
      assert (a + b)[0] == a[0];
      assert (a + b)[1..] == a[1..] + b;
      ApplyAllAppend(ApplyOne(t, a[0]), a[1..], b);
    } else {
      assert a + b == b;
    }
  }

  /** Appending a batch appends its rows. */
  lemma ConcatSnoc(bs: seq<seq<Change>>, b: seq<Change>)
    ensures Concat(bs + [b]) == Concat(bs) + b
  {
    assert (bs + [b])[..|bs|] == bs;
  }

  /** The inner loop: one batch of single-row updates, in order. */
  method WriteBatch(t: Table, batch: seq<Change>) returns (t': Table)
    ensures t' == ApplyAll(t, batch)
  {
    t' := t;
    var j := 0;
    while j < |batch|
      invariant 0 <= j <= |batch|
      invariant t' == ApplyAll(t, batch[..j])
    {
      ApplyAllAppend(t, batch[..j], [batch[j]]);
      assert batch[..j + 1] == batch[..j] + [batch[j]];
      t' := ApplyOne(t', batch[j]);
      j := j + 1;
    }
    assert batch[..j] == batch;
  }

  function Min(a: int, b: int): int {
    if a < b then a else b
  }

  /** Cuts a non-empty update list into consecutive batches of `BatchSize`
      (`for batch_start in range(0, len(updates), 500)`), applying each
      batch before cutting the next. */
  method WriteInBatches(t: Table, updates: seq<Change>) returns (t': Table, batches: seq<seq<Change>>)
    ensures t' == ApplyAll(t, updates)
    ensures Concat(batches) == updates
    ensures forall k :: 0 <= k < |batches| ==> 0 < |batches[k]| <= BatchSize
    ensures forall k :: 0 <= k < |batches| - 1 ==> |batches[k]| == BatchSize
  {
    t', batches := t, [];
    var batchStart := 0;
    while batchStart < |updates|
      invariant batchStart == |batches| * BatchSize
      invariant Concat(batches) == updates[..Min(batchStart, |updates|)]
      invariant t' == ApplyAll(t, Concat(batches))
      invariant forall k :: 0 <= k < |batches| ==> 0 < |batches[k]| <= BatchSize
      invariant forall k :: 0 <= k < |batches| - 1 ==> |batches[k]| == BatchSize
      invariant batchStart < |updates| ==> forall k :: 0 <= k < |batches| ==> |batches[k]| == BatchSize
      decreases |updates| - batchStart
    {
      var batchEnd := Min(batchStart + BatchSize, |updates|);
      var batch := updates[batchStart..batchEnd];
      ApplyAllAppend(t, Concat(batches), batch);
      t' := WriteBatch(t', batch);
      assert updates[..batchEnd] == updates[..batchStart] + batch;
      ConcatSnoc(batches, batch);
      batches := batches + [batch];
      batchStart := batchStart + BatchSize;
    }
    assert updates[..|updates|] == updates;
  }

  /** `update_stes_in_db`: the changeset is applied in order, in consecutive
      batches of `BatchSize` rows (the last one possibly shorter), and the
      number of changed rows is returned. */
  method UpdateStesInDb(t: Table, merged: seq<Row>, filter: seq<int>)
    returns (t': Table, count: nat, batches: seq<seq<Change>>)
    ensures count == |Changeset(t, merged, filter)| && count <= |merged|
    ensures t' == ApplyAll(t, Changeset(t, merged, filter))
    ensures Concat(batches) == Changeset(t, merged, filter)
    ensures forall k :: 0 <= k < |batches| ==> 0 < |batches[k]| <= BatchSize
    ensures forall k :: 0 <= k < |batches| - 1 ==> |batches[k]| == BatchSize
  {
    var updates := Changeset(t, merged, filter);
    if |updates| == 0 {
      return t, 0, [];
    }
    t', batches := WriteInBatches(t, updates);
    count := |updates|;
  }

  /** The `status` of a run summary. */
  datatype Status = Success | NoData | Error

  /** The dictionary `run_ml_pipeline` returns. */
  datatype RunResult = RunResult(status: Status, total: nat, updated: nat, error: Option<string>)

  /** What HDBSCAN must deliver for the rows a run loads, when it does not
      raise. */
  predicate LabelerFits(t: Table, filter: seq<int>, labeler: Labeler) {
    FitsRows(labeler, Load(t, filter))
  }

  /** The run loads rows and clustering them does not raise. */
  predicate Clusters(t: Table, filter: seq<int>, labeler: Labeler) {
    |Load(t, filter)| > 0 && labeler(Titles(Load(t, filter))).Ok?
  }

  /** The labelled rows of a run whose clustering succeeded. */
  function ClusteredRows(rows: seq<Row>, labels: seq<int>): (right: seq<ClusterRow>)
    requires |labels| == |rows|
  {
    seq(|rows|, i requires 0 <= i < |rows| => ClusterRow(rows[i].id, rows[i].title, rows[i].features, labels[i]))
  }

  /** `run_ml_pipeline`: load, cluster, merge, write back. Returns the table
      after the run, the model cache after the run and the summary. A
      `RuntimeError` from the model load or from the clustering is reported
      as an error summary and nothing is written. */
  function RunMlPipeline(
    t: Table, filter: seq<int>, cache: Cache, modelName: string,
    attempt: Result<EmbeddingModel, string>, labeler: Labeler)
    : (out: (Table, Cache, RunResult))
    requires LabelerFits(t, filter, labeler)
    ensures out.2.updated <= out.2.total
    ensures out.2.status == NoData <==> |Load(t, filter)| == 0
    ensures out.2.status == NoData ==> out == (t, cache, RunResult(NoData, 0, 0, None))
    ensures out.2.status == Success <==>
      (cache.Some? || attempt.Ok?) && Clusters(t, filter, labeler)
    ensures out.2.status == Error ==>
      && out.0 == t && out.2.total == |Load(t, filter)| && out.2.updated == 0
      && out.1 == GetEmbeddingModel(cache, modelName, attempt).0
    ensures out.2.status == Error && cache.None? && attempt.Err? ==>
      out.1.None? && out.2.error == Some(LoadErrorMessage(modelName, attempt.error))
    ensures out.2.status == Error && (cache.Some? || attempt.Ok?) ==>
      && out.1.Some? && labeler(Titles(Load(t, filter))).Err?
      && out.2.error == Some(labeler(Titles(Load(t, filter))).error)
    ensures out.2.status == Success ==>
      out.2.total == |Load(t, filter)| && out.2.error.None? && out.1.Some?
    ensures cache.Some? ==> out.1 == cache
    ensures |out.0| == |t|
    ensures forall i :: 0 <= i < |t| ==> out.0[i] == t[i].(cardId := out.0[i].cardId)
    ensures forall i :: 0 <= i < |t| && !Selected(filter, t[i].id) ==> out.0[i] == t[i]
  {
    var rows := Load(t, filter);
    if |rows| == 0 then (t, cache, RunResult(NoData, 0, 0, None))
    else
      var (cache', clustered) := RunClustering(rows, cache, modelName, attempt, labeler);
      match clustered
      case Err(e) => (t, cache', RunResult(Error, |rows|, 0, Some(e)))
      case Ok(right) =>
        var merged := Merge(rows, right);
        var updates := Changeset(t, merged, filter);
        NothingOutsideFilterChanges(t, filter, merged, rows);
        (ApplyAll(t, updates), cache', RunResult(Success, |rows|, |updates|, None))
  }

  /** The merged rows keep the loaded ids, so the changeset only names rows
      the filter selected, and rows outside it keep their card. */
  lemma NothingOutsideFilterChanges(t: Table, filter: seq<int>, merged: seq<Row>, rows: seq<Row>)
    requires rows == Load(t, filter)
    requires |merged| == |rows| && forall k :: 0 <= k < |rows| ==> merged[k].id == rows[k].id
    ensures forall i :: 0 <= i < |t| && !Selected(filter, t[i].id) ==>
      ApplyAll(t, Changeset(t, merged, filter))[i] == t[i]
  {
    var us := Changeset(t, merged, filter);
    forall i | 0 <= i < |t| && !Selected(filter, t[i].id)
      ensures ApplyAll(t, us)[i] == t[i]
    {
      ApplyAllLastWriteWins(t, us, i);
    }
  }

  /** In a list of rows with unique ids, the left join finds each row's own
      label. */
  lemma LabelOfOwnRow(right: seq<ClusterRow>, k: nat)
    requires k < |right|
    requires forall a, b :: 0 <= a < b < |right| ==> right[a].id != right[b].id
    ensures LabelOf(right, right[k].id) == Some(right[k].clusterId)
  {
    var r := LabelOf(right, right[k].id);
    var k' :| 0 <= k' < |right| && right[k'].id == right[k].id && right[k'].clusterId == r.value;
    assert k' == k;
  }

  /** After a successful run every loaded row stores its raw HDBSCAN label as
      its card id, except that both noise (-1) and cluster 0 are stored as no
      card. Nothing checks that a card with that id exists. */
  lemma {:induction false} SuccessStoresRawLabels(
    t: Table, filter: seq<int>, cache: Cache, modelName: string,
    attempt: Result<EmbeddingModel, string>, labeler: Labeler, k: nat, i: nat)
    requires UniqueIds(t)
    requires LabelerFits(t, filter, labeler)
    requires RunMlPipeline(t, filter, cache, modelName, attempt, labeler).2.status == Success
    requires k < |Load(t, filter)|
    requires i < |t| && t[i].id == Load(t, filter)[k].id
    ensures
      var lab := Labels(labeler, Titles(Load(t, filter)))[k];
      RunMlPipeline(t, filter, cache, modelName, attempt, labeler).0[i].cardId ==
        (if lab == Noise || lab == 0 then None else Some(lab))
  {
    var rows := Load(t, filter);
    var labels := Labels(labeler, Titles(rows));
    var (cache', clustered) := RunClustering(rows, cache, modelName, attempt, labeler);
    var right := clustered.value;
    var merged := Merge(rows, right);
    var ps := Proposals(merged);
    LoadedRowsComeFromTable(t, filter);
    LabelOfOwnRow(right, k);
    assert merged[k].cardId == MergedCard(rows[k].cardId, Some(labels[k]));
    assert UniqueRowIds(merged) by {
      forall a, b | 0 <= a < b < |merged| ensures merged[a].id != merged[b].id {
        assert merged[a].id == rows[a].id && merged[b].id == rows[b].id;
      }
    }
    assert Changeset(t, merged, filter) == Diff(CurrentMap(t, filter), ps);
    assert Selected(filter, rows[k].id);
    WrittenRowHolds(t, filter, ps, ps[k], i);
  }

  /** Two tables that differ at most in their card ids load to rows that
      differ at most in their card ids. */
  lemma {:induction false} LoadIgnoresCards(t: Table, t': Table, filter: seq<int>)
    requires |t'| == |t|
    requires forall i :: 0 <= i < |t| ==> t'[i] == t[i].(cardId := t'[i].cardId)
    ensures |Load(t', filter)| == |Load(t, filter)|
    ensures forall k :: 0 <= k < |Load(t, filter)| ==>
      Load(t', filter)[k] == Load(t, filter)[k].(cardId := Load(t', filter)[k].cardId)
    decreases |t|
  {
    if |t| > 0 {
      LoadIgnoresCards(t[1..], t'[1..], filter);
      assert t'[0].id == t[0].id;
    }
  }

  /** The same rows with the same labels merge to the same result, whatever
      card ids the rows held before: every loaded row gets a label. */
  lemma MergeForgetsOldCards(rows: seq<Row>, rows': seq<Row>, right: seq<ClusterRow>)
    requires |rows'| == |rows| == |right| > 0
    requires forall k :: 0 <= k < |rows| ==> rows'[k] == rows[k].(cardId := rows'[k].cardId)
    requires forall k :: 0 <= k < |rows| ==> right[k].id == rows[k].id
    requires forall a, b :: 0 <= a < b < |right| ==> right[a].id != right[b].id
    ensures Merge(rows', right) == Merge(rows, right)
  {
    forall k | 0 <= k < |rows| ensures Merge(rows', right)[k] == Merge(rows, right)[k] {
      LabelOfOwnRow(right, k);
    }
  }

  /** The merged rows of a run whose clustering succeeds. */
  function MergedFor(t: Table, filter: seq<int>, labeler: Labeler): seq<Row>
    requires LabelerFits(t, filter, labeler) && Clusters(t, filter, labeler)
  {
    var rows := Load(t, filter);
    Merge(rows, ClusteredRows(rows, Labels(labeler, Titles(rows))))
  }

  /** A run with rows to load, a model at hand and a clustering that does not
      raise succeeds, writing the changeset of the merged rows. */
  lemma RunSuccessShape(
    t: Table, filter: seq<int>, cache: Cache, modelName: string,
    attempt: Result<EmbeddingModel, string>, labeler: Labeler)
    requires LabelerFits(t, filter, labeler)
    ensures Clusters(t, filter, labeler) && (cache.Some? || attempt.Ok?) ==>
      var updates := Changeset(t, MergedFor(t, filter, labeler), filter);
      RunMlPipeline(t, filter, cache, modelName, attempt, labeler) ==
        (ApplyAll(t, updates), GetEmbeddingModel(cache, modelName, attempt).0,
         RunResult(Success, |Load(t, filter)|, |updates|, None))
  {
    var rows := Load(t, filter);
    if Clusters(t, filter, labeler) && (cache.Some? || attempt.Ok?) {
      var right := RunClustering(rows, cache, modelName, attempt, labeler).1.value;
      assert right == ClusteredRows(rows, Labels(labeler, Titles(rows)));
    }
  }

  /** Rewriting card ids does not change what a run merges: titles drive
      the labels, and every loaded row takes its label. */
  lemma {:induction false} MergedForIgnoresCards(t: Table, t1: Table, filter: seq<int>, labeler: Labeler)
    requires UniqueIds(t)
    requires LabelerFits(t, filter, labeler) && Clusters(t, filter, labeler)
    requires |t1| == |t|
    requires forall i :: 0 <= i < |t| ==> t1[i] == t[i].(cardId := t1[i].cardId)
    ensures LabelerFits(t1, filter, labeler) && Clusters(t1, filter, labeler)
    ensures |Load(t1, filter)| == |Load(t, filter)|
    ensures MergedFor(t1, filter, labeler) == MergedFor(t, filter, labeler)
  {
    var rows := Load(t, filter);
    var rows1 := Load(t1, filter);
    LoadIgnoresCards(t, t1, filter);
    assert Titles(rows1) == Titles(rows);
    var right := ClusteredRows(rows, Labels(labeler, Titles(rows)));
    assert ClusteredRows(rows1, Labels(labeler, Titles(rows1))) == right;
    LoadedRowsComeFromTable(t, filter);
    MergeForgetsOldCards(rows, rows1, right);
  }

  /** Writing a run's changeset settles it: the changeset of the same merged
      rows against the written table is empty. */
  lemma {:induction false} ChangesetSettles(t: Table, filter: seq<int>, labeler: Labeler)
    requires UniqueIds(t)
    requires LabelerFits(t, filter, labeler) && Clusters(t, filter, labeler)
    ensures
      var merged := MergedFor(t, filter, labeler);
      Changeset(ApplyAll(t, Changeset(t, merged, filter)), merged, filter) == []
  {
    var rows := Load(t, filter);
    var merged := MergedFor(t, filter, labeler);
    LoadedRowsComeFromTable(t, filter);
    assert UniqueRowIds(merged) by {
      forall a, b | 0 <= a < b < |merged| ensures merged[a].id != merged[b].id {
        assert merged[a].id == rows[a].id && merged[b].id == rows[b].id;
      }
    }
    forall p | p in Proposals(merged) ensures p.id in SelectedIds(t, filter) {
      var k :| 0 <= k < |merged| && Proposals(merged)[k] == p;
      assert p.id == rows[k].id;
    }
    DiffAfterWriteIsEmpty(t, filter, Proposals(merged));
  }

  /** Idempotence: re-running the pipeline right after a successful run, with
      the same clustering, finds every row already stored as computed. It
      succeeds (the model is cached and the clustering of the same titles
      did not raise), reports zero updates and writes nothing. */
  lemma {:induction false} SecondRunChangesNothing(
    t: Table, filter: seq<int>, cache: Cache, modelName: string,
    attempt: Result<EmbeddingModel, string>, attempt2: Result<EmbeddingModel, string>, labeler: Labeler)
    requires UniqueIds(t)
    requires LabelerFits(t, filter, labeler)
    requires RunMlPipeline(t, filter, cache, modelName, attempt, labeler).2.status == Success
    ensures LabelerFits(RunMlPipeline(t, filter, cache, modelName, attempt, labeler).0, filter, labeler)
    ensures
      var first := RunMlPipeline(t, filter, cache, modelName, attempt, labeler);
      var second := RunMlPipeline(first.0, filter, first.1, modelName, attempt2, labeler);
      && second.0 == first.0
      && second.1 == first.1
      && second.2 == RunResult(Success, first.2.total, 0, None)
  {
    RunSuccessShape(t, filter, cache, modelName, attempt, labeler);
    var merged := MergedFor(t, filter, labeler);
    var t1 := ApplyAll(t, Changeset(t, merged, filter));
    var c1 := GetEmbeddingModel(cache, modelName, attempt).0;
    MergedForIgnoresCards(t, t1, filter, labeler);
    ChangesetSettles(t, filter, labeler);
    RunSuccessShape(t1, filter, c1, modelName, attempt2, labeler);
  }

  // ---------------------------------------------------------------------
  // The re-aggregation endpoints of main.py
  // ---------------------------------------------------------------------

  /** `POST /api/admin/reaggregate`: refuses an empty id list (which the
      loader would read as "every row") and otherwise runs the pipeline on
      the listed ids only. */
  function ReaggregateStes(
    t: Table, steIds: seq<int>, cache: Cache, modelName: string,
    attempt: Result<EmbeddingModel, string>, labeler: Labeler)
    : (r: Result<(Table, Cache, RunResult), HttpError>)
    requires |steIds| > 0 ==> LabelerFits(t, steIds, labeler)
    ensures |steIds| == 0 <==> r.Err?
    ensures r.Err? ==> r.error == HttpError(400, "ste_ids cannot be empty")
    ensures r.Ok? ==> |r.value.0| == |t|
    ensures r.Ok? ==> forall i :: 0 <= i < |t| && t[i].id !in steIds ==> r.value.0[i] == t[i]
    ensures r.Ok? ==> r.value.2.total <= |t| && r.value.2.updated <= r.value.2.total
  {
    if |steIds| == 0 then Err(HttpError(400, "ste_ids cannot be empty"))
    else Ok(RunMlPipeline(t, steIds, cache, modelName, attempt, labeler))
  }

  /** `POST /api/admin/reaggregate/all`: the pipeline with no filter, so every
      row of the table is loaded and counted. */
  function ReaggregateAllStes(
    t: Table, cache: Cache, modelName: string,
    attempt: Result<EmbeddingModel, string>, labeler: Labeler)
    : (r: (Table, Cache, RunResult))
    requires LabelerFits(t, [], labeler)
    ensures r.2.status != NoData ==> r.2.total == |t|
    ensures r.2.status == NoData <==> |t| == 0
  {
    RunMlPipeline(t, [], cache, modelName, attempt, labeler)
  }

  // ---------------------------------------------------------------------
  // Two behaviours of the merge, shown on small tables
  // ---------------------------------------------------------------------

  /** Three items of which the first two form HDBSCAN's cluster number 0. */
  const BoltTable: Table := [
    Ste(1, None, Some("Bolt M6"), None),
    Ste(2, None, Some("Bolt M6 steel"), None),
    Ste(3, None, Some("Unrelated Widget"), None)]

  /** A clustering that puts the two bolts into cluster 0 and the widget
      into noise. */
  function BoltsAsClusterZero(titles: seq<string>): Result<seq<int>, string> {
    if |titles| == 3 then Ok([0, 0, Noise]) else Ok([])
  }

  /** Cluster 0 is stored exactly like noise: the two bolts, a genuine
      cluster, end up without a card, just like the unrelated widget. */
  lemma ClusterZeroIsStoredAsNoCard(m: EmbeddingModel, attempt: Result<EmbeddingModel, string>)
    ensures LabelerFits(BoltTable, [], BoltsAsClusterZero)
    ensures
      var out := RunMlPipeline(BoltTable, [], Some(m), DefaultModelName, attempt, BoltsAsClusterZero);
      && out.2.status == Success
      && out.0[0].cardId.None? && out.0[1].cardId.None? && out.0[2].cardId.None?
  {
    var t := BoltTable;
    BoltTableFacts();
    RunSuccessShape(t, [], Some(m), DefaultModelName, attempt, BoltsAsClusterZero);
    SuccessStoresRawLabels(t, [], Some(m), DefaultModelName, attempt, BoltsAsClusterZero, 0, 0);
    SuccessStoresRawLabels(t, [], Some(m), DefaultModelName, attempt, BoltsAsClusterZero, 1, 1);
    SuccessStoresRawLabels(t, [], Some(m), DefaultModelName, attempt, BoltsAsClusterZero, 2, 2);
  }

  /** What a run over the whole `BoltTable` loads and labels. */
  lemma BoltTableFacts()
    ensures UniqueIds(BoltTable)
    ensures Load(BoltTable, []) == [LoadRow(BoltTable[0]), LoadRow(BoltTable[1]), LoadRow(BoltTable[2])]
    ensures BoltsAsClusterZero(Titles(Load(BoltTable, []))) == Ok([0, 0, Noise])
    ensures LabelerFits(BoltTable, [], BoltsAsClusterZero)
  {
    BoltTableLoads();
    BoltTableUnique();
    var labels := Labels(BoltsAsClusterZero, Titles(Load(BoltTable, [])));
    assert labels == [0, 0, Noise];
    assert LabelsFit(labels, 3);
  }

  lemma BoltTableUnique()
    ensures UniqueIds(BoltTable)
  {
    var t := BoltTable;
    assert t[0].id == 1 && t[1].id == 2 && t[2].id == 3;
  }

  lemma BoltTableLoads()
    ensures Load(BoltTable, []) == [LoadRow(BoltTable[0]), LoadRow(BoltTable[1]), LoadRow(BoltTable[2])]
  {
    var rows := Load(BoltTable, []);
    assert rows[0] == LoadRow(BoltTable[0]) && rows[1] == LoadRow(BoltTable[1]) && rows[2] == LoadRow(BoltTable[2]);
  }

  /** A hammer already in card 1, and two bolts about to be re-aggregated. */
  const HammerTable: Table := [
    Ste(1, Some(1), Some("Hammer"), None),
    Ste(2, None, Some("Bolt M6"), None),
    Ste(3, None, Some("Bolt M6 steel"), None)]

  /** A clustering of the two bolts into cluster 1. */
  function BoltsAsClusterOne(titles: seq<string>): Result<seq<int>, string> {
    if |titles| == 2 then Ok([1, 1]) else Ok([])
  }

  /** A raw label is stored as a card id: re-aggregating the bolts files them
      under card 1, the hammer's card, although nothing relates them. */
  lemma RawLabelJoinsUnrelatedCard(m: EmbeddingModel, attempt: Result<EmbeddingModel, string>)
    ensures LabelerFits(HammerTable, [2, 3], BoltsAsClusterOne)
    ensures
      var out := RunMlPipeline(HammerTable, [2, 3], Some(m), DefaultModelName, attempt, BoltsAsClusterOne);
      && out.2.status == Success
      && out.0[0].cardId == Some(1)
      && out.0[1].cardId == Some(1) && out.0[2].cardId == Some(1)
  {
    var t := HammerTable;
    HammerTableFacts();
    RunSuccessShape(t, [2, 3], Some(m), DefaultModelName, attempt, BoltsAsClusterOne);
    SuccessStoresRawLabels(t, [2, 3], Some(m), DefaultModelName, attempt, BoltsAsClusterOne, 0, 1);
    SuccessStoresRawLabels(t, [2, 3], Some(m), DefaultModelName, attempt, BoltsAsClusterOne, 1, 2);
  }

  /** What a run over the bolts of `HammerTable` loads and labels. */
  lemma HammerTableFacts()
    ensures UniqueIds(HammerTable)
    ensures Load(HammerTable, [2, 3]) == [LoadRow(HammerTable[1]), LoadRow(HammerTable[2])]
    ensures BoltsAsClusterOne(Titles(Load(HammerTable, [2, 3]))) == Ok([1, 1])
    ensures LabelerFits(HammerTable, [2, 3], BoltsAsClusterOne)
    ensures !Selected([2, 3], HammerTable[0].id)
  {
    var t := HammerTable;
    assert t[0].id == 1 && t[1].id == 2 && t[2].id == 3;
    var rows := Load(t, [2, 3]);
    assert rows == [LoadRow(t[1]), LoadRow(t[2])];
    var labels := Labels(BoltsAsClusterOne, Titles(rows));
    assert labels == [1, 1];
    assert LabelsFit(labels, 2);
  }
}

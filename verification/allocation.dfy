/**
  The reconciliation `ml_insert.py` evidently intends: every cluster of a
  run is given a card of its own, allocated fresh for that run, and noise
  is given no card.

  The code as written stores the raw HDBSCAN label as the card id and
  stores label 0 as "no card" (see `Pipeline.ClusterZeroIsStoredAsNoCard`
  and `Pipeline.RawLabelJoinsUnrelatedCard`). Here the label-to-card
  mapping is an explicit value scoped to one run: the k-th distinct label
  to appear gets card `nextId + k`, where `nextId` is above every card id
  the store already holds. Card membership is an `Option`, so no number
  doubles as "no card". The diff and the write are the source's own
  (`Reaggregate.Diff`, `Reaggregate.ApplyAll`).
 */
module Allocation {
  import opened Common
  import opened ModelCache
  import opened Reaggregate
  import opened Pipeline

  predicate Distinct(s: seq<int>) {
    forall i, j :: 0 <= i < j < |s| ==> s[i] != s[j]
  }

  /** The distinct cluster labels of a run, noise left out, in the order in
      which the items first show them. */
  function FirstSeen(labels: seq<int>): (ls: seq<int>)
    ensures Distinct(ls)
    ensures forall x :: x in ls <==> x in labels && x != Noise
    decreases |labels|
  {
    if |labels| == 0 then []
    else
      var prev := FirstSeen(labels[..|labels| - 1]);
      var l := labels[|labels| - 1];
      assert labels == labels[..|labels| - 1] + [l];
      if l == Noise || l in prev then prev else prev + [l]
  }

  /** The labels come out in the order of their first appearance: the
      earlier of two listed labels first appears earlier in the run. */
  lemma {:induction false} FirstSeenInOrder(labels: seq<int>)
    ensures forall a, b :: 0 <= a < b < |FirstSeen(labels)| ==>
      && FirstSeen(labels)[a] in labels && FirstSeen(labels)[b] in labels
      && Position(labels, FirstSeen(labels)[a]) < Position(labels, FirstSeen(labels)[b])
    decreases |labels|
  {
    if |labels| > 0 {
      var init := labels[..|labels| - 1];
      var l := labels[|labels| - 1];
      FirstSeenInOrder(init);
      var prev := FirstSeen(init);
      assert labels == init + [l];
      assert forall k :: 0 <= k < |prev| ==> prev[k] in init by {
        forall k | 0 <= k < |prev| ensures prev[k] in init {
          assert prev[k] in prev;
        }
      }
      var ls := FirstSeen(labels);
      FirstSeenStep(init, l, prev, ls);
      forall a, b | 0 <= a < b < |ls|
        ensures ls[a] in labels && ls[b] in labels && Position(labels, ls[a]) < Position(labels, ls[b])
      {
        assert ls[a] in init + [l] && ls[b] in init + [l];
        assert Position(init + [l], ls[a]) < Position(init + [l], ls[b]);
      }
    } else {
      assert FirstSeen(labels) == [];
    }
  }

  /** One more label keeps the first-seen order: earlier labels keep their
      first positions, and a label new to the run comes last. */
  lemma FirstSeenStep(init: seq<int>, l: int, prev: seq<int>, ls: seq<int>)
    requires forall k :: 0 <= k < |prev| ==> prev[k] in init
    requires forall a, b :: 0 <= a < b < |prev| ==>
      prev[a] in init && prev[b] in init && Position(init, prev[a]) < Position(init, prev[b])
    requires l != Noise && l !in prev ==> l !in init
    requires ls == if l == Noise || l in prev then prev else prev + [l]
    ensures forall a, b :: 0 <= a < b < |ls| ==>
      ls[a] in init + [l] && ls[b] in init + [l] && Position(init + [l], ls[a]) < Position(init + [l], ls[b])
  {
    forall k | 0 <= k < |prev|
      ensures prev[k] in init + [l] && Position(init + [l], prev[k]) == Position(init, prev[k]) < |init|
    {
      PositionSnoc(init, l, prev[k]);
    }
    if !(l == Noise || l in prev) {
      PositionLast(init, l);
    }
  }

  lemma PositionSnoc(s: seq<int>, y: int, x: int)
    requires x in s
    ensures Position(s + [y], x) == Position(s, x)
  {
    assert (s + [y])[Position(s, x)] == x;
  }

  lemma PositionLast(s: seq<int>, y: int)
    requires y !in s
    ensures Position(s + [y], y) == |s|
  {
    assert (s + [y])[|s|] == y;
  }

  /** The first position of `x` in `s`. */
  function Position(s: seq<int>, x: int): (k: nat)
    requires x in s
    ensures k < |s| && s[k] == x
    ensures forall j :: 0 <= j < k ==> s[j] != x
  {
    if s[0] == x then 0 else 1 + Position(s[1..], x)
  }

  /** The run's mapping from cluster label to card: one card per non-noise
      label, distinct labels on distinct cards, all of them from `nextId` on. */
  function LabelCards(labels: seq<int>, nextId: int): (m: map<int, int>)
    ensures forall l :: l in m <==> l in labels && l != Noise
    ensures forall l :: l in m ==> nextId <= m[l] < nextId + |FirstSeen(labels)|
    ensures forall a, b :: a in m && b in m && m[a] == m[b] ==> a == b
  {
    var ls := FirstSeen(labels);
    map l | l in ls :: nextId + Position(ls, l)
  }

  /** The cards a run allocates. */
  function NewCards(labels: seq<int>, nextId: int): (cs: set<int>)
    ensures forall c :: c in cs ==> c >= nextId
    ensures forall l :: l in labels && l != Noise ==> LabelCards(labels, nextId)[l] in cs
  {
    LabelCards(labels, nextId).Values
  }

  /** The corrected merge-and-persist step: each loaded row asks for its
      cluster's card, or for no card when it is noise. */
  function Reconcile(rows: seq<Row>, labels: seq<int>, nextId: int): (ps: seq<Change>)
    requires |labels| == |rows|
    ensures |ps| == |rows|
    ensures forall k :: 0 <= k < |rows| ==> ps[k].id == rows[k].id
    ensures forall k :: 0 <= k < |rows| && labels[k] == Noise ==> ps[k].cardId.None?
    ensures forall k :: 0 <= k < |rows| && labels[k] != Noise ==>
      ps[k].cardId.Some? && ps[k].cardId.value in NewCards(labels, nextId)
    ensures forall a, b :: 0 <= a < |rows| && 0 <= b < |rows| && labels[a] != Noise && labels[b] != Noise ==>
      (ps[a].cardId == ps[b].cardId <==> labels[a] == labels[b])
    ensures UniqueRowIds(rows) ==> UniqueChangeIds(ps)
  {
    var cards := LabelCards(labels, nextId);
    var ps := seq(|rows|, k requires 0 <= k < |rows| =>
      Change(rows[k].id, if labels[k] == Noise then None else Some(cards[labels[k]])));
    ReconcileFacts(rows, labels, cards, nextId, ps);
    ps
  }

  lemma ReconcileFacts(rows: seq<Row>, labels: seq<int>, cards: map<int, int>, nextId: int, ps: seq<Change>)
    requires |labels| == |rows| && cards == LabelCards(labels, nextId)
    requires |ps| == |rows|
    requires forall k :: 0 <= k < |rows| ==>
      ps[k] == Change(rows[k].id, if labels[k] == Noise then None else Some(cards[labels[k]]))
    ensures forall k :: 0 <= k < |rows| && labels[k] != Noise ==>
      ps[k].cardId.Some? && ps[k].cardId.value in NewCards(labels, nextId)
    ensures forall a, b :: 0 <= a < |rows| && 0 <= b < |rows| && labels[a] != Noise && labels[b] != Noise ==>
      (ps[a].cardId == ps[b].cardId <==> labels[a] == labels[b])
    ensures UniqueRowIds(rows) ==> UniqueChangeIds(ps)
  {
  }

  // ---------------------------------------------------------------------
  // Label numbers carry no meaning
  // ---------------------------------------------------------------------

  /** The labels after renaming every cluster by `f`. */
  function Rename(labels: seq<int>, f: int -> int): (r: seq<int>)
    ensures |r| == |labels|
    ensures forall k :: 0 <= k < |labels| ==> r[k] == f(labels[k])
  {
    seq(|labels|, k requires 0 <= k < |labels| => f(labels[k]))
  }

  /** `f` renames clusters: noise stays noise, clusters stay clusters, and
      different clusters keep different numbers. */
  predicate RenamesClusters(labels: seq<int>, f: int -> int) {
    && f(Noise) == Noise
    && (forall l :: l in labels && l != Noise ==> f(l) != Noise)
    && (forall a, b :: a in labels && b in labels && f(a) == f(b) ==> a == b)
  }

  lemma {:induction false} FirstSeenRename(labels: seq<int>, f: int -> int)
    requires RenamesClusters(labels, f)
    ensures FirstSeen(Rename(labels, f)) == Rename(FirstSeen(labels), f)
    decreases |labels|
  {
    if |labels| > 0 {
      var init := labels[..|labels| - 1];
      var l := labels[|labels| - 1];
      assert forall x :: x in init ==> x in labels;
      FirstSeenRename(init, f);
      assert Rename(labels, f)[..|labels| - 1] == Rename(init, f);
      var prev := FirstSeen(init);
      assert l in prev <==> f(l) in Rename(prev, f) by {
        if f(l) in Rename(prev, f) {
          var j :| 0 <= j < |prev| && Rename(prev, f)[j] == f(l);
          assert prev[j] in init;
        }
      }
    }
  }

  lemma PositionRename(s: seq<int>, f: int -> int, x: int)
    requires x in s
    requires forall a, b :: a in s && b in s && f(a) == f(b) ==> a == b
    ensures f(x) in Rename(s, f)
    ensures Position(Rename(s, f), f(x)) == Position(s, x)
  {
    var k := Position(s, x);
    assert Rename(s, f)[k] == f(x);
    forall j | 0 <= j < k ensures Rename(s, f)[j] != f(x) {
      assert s[j] in s;
    }
  }

  /** Renaming the clusters of a run gives every row the same card: only
      which rows share a label matters, not the label's number. */
  lemma RenamingKeepsCards(rows: seq<Row>, labels: seq<int>, f: int -> int, nextId: int)
    requires |labels| == |rows|
    requires RenamesClusters(labels, f)
    ensures Reconcile(rows, Rename(labels, f), nextId) == Reconcile(rows, labels, nextId)
  {
    var renamed := Rename(labels, f);
    var ls := FirstSeen(labels);
    FirstSeenRename(labels, f);
    forall k | 0 <= k < |rows| && labels[k] != Noise
      ensures LabelCards(renamed, nextId)[renamed[k]] == LabelCards(labels, nextId)[labels[k]]
    {
      assert labels[k] in labels;
      assert forall x :: x in ls ==> x in labels;
      PositionRename(ls, f, labels[k]);
    }
    assert forall k :: 0 <= k < |rows| ==> (renamed[k] == Noise <==> labels[k] == Noise) by {
      forall k | 0 <= k < |rows| ensures renamed[k] == Noise <==> labels[k] == Noise {
        assert labels[k] in labels;
      }
    }
  }

  // ---------------------------------------------------------------------
  // The corrected run
  // ---------------------------------------------------------------------

  /** Every card a row points at exists. */
  predicate CardsExist(t: Table, cards: set<int>) {
    forall i :: 0 <= i < |t| && t[i].cardId.Some? ==> t[i].cardId.value in cards
  }

  /** `run_ml_pipeline` with the corrected reconciliation. `cards` are the
      existing card ids and `nextId` the first id above all of them, as the
      store would hand them out. Returns the table, the cache, the summary
      and the card ids after the run. */
  function AllocatingRun(
    t: Table, filter: seq<int>, cache: Cache, modelName: string,
    attempt: Result<EmbeddingModel, string>, labeler: Labeler, cards: set<int>, nextId: int)
    : (out: (Table, Cache, RunResult, set<int>))
    requires LabelerFits(t, filter, labeler)
    requires forall c :: c in cards ==> c < nextId
    ensures out.2.updated <= out.2.total
    ensures out.2.status == NoData <==> |Load(t, filter)| == 0
    ensures out.2.status != Success ==> out.0 == t && out.3 == cards && out.2.updated == 0
    ensures out.2.status == Success <==>
      (cache.Some? || attempt.Ok?) && Clusters(t, filter, labeler)
    ensures out.2.status == Error ==>
      out.2.total == |Load(t, filter)| && out.1 == GetEmbeddingModel(cache, modelName, attempt).0
    ensures out.2.status == Error && cache.None? && attempt.Err? ==>
      out.1.None? && out.2.error == Some(LoadErrorMessage(modelName, attempt.error))
    ensures out.2.status == Error && (cache.Some? || attempt.Ok?) ==>
      && labeler(Titles(Load(t, filter))).Err?
      && out.2.error == Some(labeler(Titles(Load(t, filter))).error)
    ensures out.2.status == Success ==> out.2.total == |Load(t, filter)| && out.1.Some?
    ensures cache.Some? ==> out.1 == cache
    ensures cards <= out.3
    ensures forall c :: c in out.3 && c !in cards ==> c >= nextId
    ensures |out.0| == |t|
    ensures forall i :: 0 <= i < |t| ==> out.0[i] == t[i].(cardId := out.0[i].cardId)
    ensures forall i :: 0 <= i < |t| && !Selected(filter, t[i].id) ==> out.0[i] == t[i]
  {
    var rows := Load(t, filter);
    if |rows| == 0 then (t, cache, RunResult(NoData, 0, 0, None), cards)
    else
      var (cache', clustered) := RunClustering(rows, cache, modelName, attempt, labeler);
      match clustered
      case Err(e) => (t, cache', RunResult(Error, |rows|, 0, Some(e)), cards)
      case Ok(_) =>
        var labels := Labels(labeler, Titles(rows));
        var ps := Reconcile(rows, labels, nextId);
        var updates := Diff(CurrentMap(t, filter), ps);
        OutsideFilterKept(t, filter, ps, updates);
        (ApplyAll(t, updates), cache', RunResult(Success, |rows|, |updates|, None),
         cards + NewCards(labels, nextId))
  }

  /** Updates that only name selected rows leave every other row as it was. */
  lemma OutsideFilterKept(t: Table, filter: seq<int>, ps: seq<Change>, us: seq<Change>)
    requires forall k :: 0 <= k < |ps| ==> Selected(filter, ps[k].id)
    requires forall u :: u in us ==> u in ps
    ensures forall i :: 0 <= i < |t| && !Selected(filter, t[i].id) ==> ApplyAll(t, us)[i] == t[i]
  {
    forall i | 0 <= i < |t| && !Selected(filter, t[i].id)
      ensures ApplyAll(t, us)[i] == t[i]
    {
      ApplyAllLastWriteWins(t, us, i);
      if LastWrite(us, t[i].id).Some? {
        assert Change(t[i].id, LastWrite(us, t[i].id).value) in ps;
      }
    }
  }

  /** The changeset of a successful corrected run. */
  function AllocatingChangeset(t: Table, filter: seq<int>, labeler: Labeler, nextId: int): seq<Change>
    requires LabelerFits(t, filter, labeler)
  {
    var rows := Load(t, filter);
    if !Clusters(t, filter, labeler) then []
    else Diff(CurrentMap(t, filter), Reconcile(rows, Labels(labeler, Titles(rows)), nextId))
  }

  /** A corrected run leaves no row pointing at a card that does not exist,
      provided none did before. */
  lemma AllocatingRunKeepsCardsReal(
    t: Table, filter: seq<int>, cache: Cache, modelName: string,
    attempt: Result<EmbeddingModel, string>, labeler: Labeler, cards: set<int>, nextId: int)
    requires LabelerFits(t, filter, labeler)
    requires forall c :: c in cards ==> c < nextId
    requires CardsExist(t, cards)
    ensures
      var out := AllocatingRun(t, filter, cache, modelName, attempt, labeler, cards, nextId);
      CardsExist(out.0, out.3)
  {
    var out := AllocatingRun(t, filter, cache, modelName, attempt, labeler, cards, nextId);
    if out.2.status == Success {
      var rows := Load(t, filter);
      var labels := Labels(labeler, Titles(rows));
      var ps := Reconcile(rows, labels, nextId);
      var us := AllocatingChangeset(t, filter, labeler, nextId);
      assert out.0 == ApplyAll(t, us) && out.3 == cards + NewCards(labels, nextId);
      WrittenCardsExist(t, us, ps, cards, NewCards(labels, nextId));
    }
  }

  /** Writing updates drawn from proposals whose cards are all in
      `newCards` leaves every card pointed at in `cards + newCards`. */
  lemma WrittenCardsExist(t: Table, us: seq<Change>, ps: seq<Change>, cards: set<int>, newCards: set<int>)
    requires CardsExist(t, cards)
    requires forall u :: u in us ==> u in ps
    requires forall k :: 0 <= k < |ps| && ps[k].cardId.Some? ==> ps[k].cardId.value in newCards
    ensures CardsExist(ApplyAll(t, us), cards + newCards)
  {
    var t' := ApplyAll(t, us);
    forall i | 0 <= i < |t| && t'[i].cardId.Some?
      ensures t'[i].cardId.value in cards + newCards
    {
      ApplyAllLastWriteWins(t, us, i);
      match LastWrite(us, t[i].id)
      case None =>
      case Some(v) =>
        var k :| 0 <= k < |ps| && ps[k] == Change(t[i].id, v);
    }
  }

  /** After a successful corrected run every loaded row holds the card its
      cluster was given, or no card when it is noise. */
  lemma {:induction false} AllocatingRunStores(
    t: Table, filter: seq<int>, cache: Cache, modelName: string,
    attempt: Result<EmbeddingModel, string>, labeler: Labeler, cards: set<int>, nextId: int, k: nat, i: nat)
    requires UniqueIds(t)
    requires LabelerFits(t, filter, labeler)
    requires forall c :: c in cards ==> c < nextId
    requires AllocatingRun(t, filter, cache, modelName, attempt, labeler, cards, nextId).2.status == Success
    requires k < |Load(t, filter)|
    requires i < |t| && t[i].id == Load(t, filter)[k].id
    ensures
      var labels := Labels(labeler, Titles(Load(t, filter)));
      AllocatingRun(t, filter, cache, modelName, attempt, labeler, cards, nextId).0[i].cardId ==
        Reconcile(Load(t, filter), labels, nextId)[k].cardId
  {
    var rows := Load(t, filter);
    var ps := Reconcile(rows, Labels(labeler, Titles(rows)), nextId);
    LoadedRowsComeFromTable(t, filter);
    var us := Diff(CurrentMap(t, filter), ps);
    assert AllocatingChangeset(t, filter, labeler, nextId) == us;
    assert AllocatingRun(t, filter, cache, modelName, attempt, labeler, cards, nextId).0 == ApplyAll(t, us);
    assert Selected(filter, rows[k].id);
    WrittenRowHolds(t, filter, ps, ps[k], i);
  }

  /** Re-diffing a corrected run's proposals against the table it wrote
      finds nothing to do. */
  lemma AllocatingRunSettles(t: Table, filter: seq<int>, labeler: Labeler, nextId: int)
    requires UniqueIds(t)
    requires LabelerFits(t, filter, labeler) && Clusters(t, filter, labeler)
    ensures
      var rows := Load(t, filter);
      var ps := Reconcile(rows, Labels(labeler, Titles(rows)), nextId);
      Diff(CurrentMap(ApplyAll(t, AllocatingChangeset(t, filter, labeler, nextId)), filter), ps) == []
  {
    var rows := Load(t, filter);
    var ps := Reconcile(rows, Labels(labeler, Titles(rows)), nextId);
    LoadedRowsComeFromTable(t, filter);
    assert forall p :: p in ps ==> p.id in SelectedIds(t, filter) by {
      forall p | p in ps ensures p.id in SelectedIds(t, filter) {
        var k :| 0 <= k < |ps| && ps[k] == p;
        assert p.id == rows[k].id;
      }
    }
    DiffAfterWriteIsEmpty(t, filter, ps);
  }

  // ---------------------------------------------------------------------
  // The two tables of the as-written counterexamples, reconciled
  // ---------------------------------------------------------------------

  /** With allocation, HDBSCAN's cluster 0 is a group like any other: the
      two bolts share a new card and only the noise item has none. */
  lemma ClusterZeroGetsACard(m: EmbeddingModel, attempt: Result<EmbeddingModel, string>)
    ensures LabelerFits(Pipeline.BoltTable, [], Pipeline.BoltsAsClusterZero)
    ensures
      var out := AllocatingRun(Pipeline.BoltTable, [], Some(m), DefaultModelName, attempt,
                               Pipeline.BoltsAsClusterZero, {}, 1);
      && out.2.status == Success
      && out.0[0].cardId.Some? && out.0[0].cardId == out.0[1].cardId
      && out.0[0].cardId.value in out.3
      && out.0[2].cardId.None?
  {
    var t := Pipeline.BoltTable;
    var lab := Pipeline.BoltsAsClusterZero;
    Pipeline.BoltTableFacts();
    var rows := Load(t, []);
    var labels := Labels(lab, Titles(rows));
    AllocatingRunSucceeds(t, [], m, DefaultModelName, attempt, lab, {}, 1);
    AllocatingRunStores(t, [], Some(m), DefaultModelName, attempt, lab, {}, 1, 0, 0);
    AllocatingRunStores(t, [], Some(m), DefaultModelName, attempt, lab, {}, 1, 1, 1);
    AllocatingRunStores(t, [], Some(m), DefaultModelName, attempt, lab, {}, 1, 2, 2);
    var ps := Reconcile(rows, labels, 1);
    assert labels[0] != Noise && labels[1] != Noise && labels[0] == labels[1] && labels[2] == Noise;
    assert ps[0].cardId.Some? && ps[0].cardId.value in NewCards(labels, 1);
    assert ps[0].cardId == ps[1].cardId;
  }

  /** With allocation, re-aggregating the bolts gives them a new card of
      their own and leaves the hammer alone in card 1. */
  lemma BoltsGetTheirOwnCard(m: EmbeddingModel, attempt: Result<EmbeddingModel, string>)
    ensures LabelerFits(Pipeline.HammerTable, [2, 3], Pipeline.BoltsAsClusterOne)
    ensures
      var out := AllocatingRun(Pipeline.HammerTable, [2, 3], Some(m), DefaultModelName, attempt,
                               Pipeline.BoltsAsClusterOne, {1}, 2);
      && out.2.status == Success
      && out.0[0].cardId == Some(1)
      && out.0[1].cardId.Some? && out.0[1].cardId == out.0[2].cardId
      && out.0[1].cardId != Some(1) && out.0[1].cardId.value in out.3
  {
    var t := Pipeline.HammerTable;
    var lab := Pipeline.BoltsAsClusterOne;
    Pipeline.HammerTableFacts();
    var rows := Load(t, [2, 3]);
    var labels := Labels(lab, Titles(rows));
    AllocatingRunSucceeds(t, [2, 3], m, DefaultModelName, attempt, lab, {1}, 2);
    AllocatingRunStores(t, [2, 3], Some(m), DefaultModelName, attempt, lab, {1}, 2, 0, 1);
    AllocatingRunStores(t, [2, 3], Some(m), DefaultModelName, attempt, lab, {1}, 2, 1, 2);
    var ps := Reconcile(rows, labels, 2);
    assert labels[0] != Noise && labels[0] == labels[1];
    assert ps[0].cardId.Some? && ps[0].cardId.value in NewCards(labels, 2);
    assert ps[0].cardId == ps[1].cardId;
  }

  /** A corrected run with rows to load, a model at hand and a clustering
      that does not raise succeeds and adds the run's new cards. */
  lemma AllocatingRunSucceeds(
    t: Table, filter: seq<int>, m: EmbeddingModel, modelName: string,
    attempt: Result<EmbeddingModel, string>, labeler: Labeler, cards: set<int>, nextId: int)
    requires LabelerFits(t, filter, labeler)
    requires forall c :: c in cards ==> c < nextId
    requires Clusters(t, filter, labeler)
    ensures
      var out := AllocatingRun(t, filter, Some(m), modelName, attempt, labeler, cards, nextId);
      && out.2.status == Success
      && out.3 == cards + NewCards(Labels(labeler, Titles(Load(t, filter))), nextId)
  {
  }
}

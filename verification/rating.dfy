/**
  `rate_aggregation` in `main.py`: a user says whether an item belongs in a
  card (score 1) or not (score 0). A user has at most one vote per
  (card, item): voting again overwrites the score.
 */
module Rating {
  import opened Common

  /** A row of the `feedbacks` table. */
  datatype Feedback = Feedback(id: int, cardId: int, steId: int, score: int, userId: int)

  /** What the endpoint reads and writes: the card ids, the item ids, the
      feedback rows and the next feedback id the table will hand out. */
  datatype Db = Db(cards: set<int>, stes: set<int>, feedbacks: seq<Feedback>, nextId: int)

  /** At most one vote per (card, item, user), and distinct row ids below
      `nextId`. */
  predicate Valid(db: Db) {
    && (forall i, j :: 0 <= i < j < |db.feedbacks| ==>
          !SameVoter(db.feedbacks[i], db.feedbacks[j]) && db.feedbacks[i].id != db.feedbacks[j].id)
    && (forall i :: 0 <= i < |db.feedbacks| ==> db.feedbacks[i].id < db.nextId)
  }

  predicate SameVoter(a: Feedback, b: Feedback) {
    a.cardId == b.cardId && a.steId == b.steId && a.userId == b.userId
  }

  /** The position of the vote of `user` on (`card`, `ste`), if any. */
  function FindVote(fs: seq<Feedback>, card: int, ste: int, user: int): (r: Option<nat>)
    ensures r.None? <==> forall i :: 0 <= i < |fs| ==>
      !(fs[i].cardId == card && fs[i].steId == ste && fs[i].userId == user)
    ensures r.Some? ==>
      && r.value < |fs|
      && fs[r.value].cardId == card && fs[r.value].steId == ste && fs[r.value].userId == user
    decreases |fs|
  {
    if |fs| == 0 then None
    else if fs[|fs| - 1].cardId == card && fs[|fs| - 1].steId == ste && fs[|fs| - 1].userId == user then
      Some(|fs| - 1)
    else
      var r := FindVote(fs[..|fs| - 1], card, ste, user);
      assert forall i :: 0 <= i < |fs| - 1 ==> fs[..|fs| - 1][i] == fs[i];
      r
  }

  /** `rate_aggregation`: 404 for an unknown card or item, then 400 for a
      score other than 0 or 1; otherwise the user's vote on the pair is
      overwritten, or created when there is none. Returns the database
      afterwards and the vote. */
  function RateAggregation(db: Db, card: int, ste: int, score: int, user: int)
    : (r: Result<(Db, Feedback), HttpError>)
    ensures r.Err? <==> card !in db.cards || ste !in db.stes || score !in {0, 1}
    ensures r.Err? && (card !in db.cards || ste !in db.stes) ==>
      r.error == HttpError(404, "Card or STE not found")
    ensures r.Err? && card in db.cards && ste in db.stes ==>
      r.error == HttpError(400, "Score must be 0 or 1")
    ensures r.Ok? ==>
      var (db', vote) := r.value;
      && vote in db'.feedbacks
      && vote.cardId == card && vote.steId == ste && vote.userId == user && vote.score == score
      && db'.cards == db.cards && db'.stes == db.stes
  {
    if card !in db.cards || ste !in db.stes then Err(HttpError(404, "Card or STE not found"))
    else if score !in {0, 1} then Err(HttpError(400, "Score must be 0 or 1"))
    else
      match FindVote(db.feedbacks, card, ste, user)
      case Some(i) =>
        var vote := db.feedbacks[i].(score := score);
        assert db.feedbacks[i := vote][i] == vote;
        Ok((db.(feedbacks := db.feedbacks[i := vote]), vote))
      case None =>
        var vote := Feedback(db.nextId, card, ste, score, user);
        Ok((db.(feedbacks := db.feedbacks + [vote], nextId := db.nextId + 1), vote))
  }

  /** Rating keeps one vote per (card, item, user): a second vote by the
      same user replaces the first and adds no row; any other vote is kept
      as it was. */
  lemma RatingKeepsOneVotePerVoter(db: Db, card: int, ste: int, score: int, user: int)
    requires Valid(db)
    requires RateAggregation(db, card, ste, score, user).Ok?
    ensures var (db', vote) := RateAggregation(db, card, ste, score, user).value;
      && Valid(db')
      && (FindVote(db.feedbacks, card, ste, user).Some? ==> |db'.feedbacks| == |db.feedbacks|)
      && (FindVote(db.feedbacks, card, ste, user).None? ==> |db'.feedbacks| == |db.feedbacks| + 1)
      && (forall f :: f in db.feedbacks && !SameVoter(f, vote) ==> f in db'.feedbacks)
      && (forall f :: f in db'.feedbacks && !SameVoter(f, vote) ==> f in db.feedbacks)
  {
    var (db', vote) := RateAggregation(db, card, ste, score, user).value;
    match FindVote(db.feedbacks, card, ste, user)
    case Some(i) =>
      forall f | f in db.feedbacks && !SameVoter(f, vote) ensures f in db'.feedbacks {
        var k :| 0 <= k < |db.feedbacks| && db.feedbacks[k] == f;
        assert db'.feedbacks[k] == f;
      }
      forall f | f in db'.feedbacks && !SameVoter(f, vote) ensures f in db.feedbacks {
        var k :| 0 <= k < |db'.feedbacks| && db'.feedbacks[k] == f;
        assert db.feedbacks[k] == f;
      }
    case None =>
      assert db'.feedbacks == db.feedbacks + [vote];
  }

  /** A user's verdict on a pair is their last vote on it. */
  lemma LastVoteCounts(db: Db, card: int, ste: int, user: int, first: int, second: int)
    requires Valid(db)
    requires RateAggregation(db, card, ste, first, user).Ok?
    requires second in {0, 1}
    ensures
      var db1 := RateAggregation(db, card, ste, first, user).value.0;
      var r := RateAggregation(db1, card, ste, second, user);
      && r.Ok?
      && |r.value.0.feedbacks| == |db1.feedbacks|
      && FindVote(r.value.0.feedbacks, card, ste, user).Some?
      && r.value.0.feedbacks[FindVote(r.value.0.feedbacks, card, ste, user).value].score == second
  {
    var db1 := RateAggregation(db, card, ste, first, user).value.0;
    RatingKeepsOneVotePerVoter(db, card, ste, first, user);
    var r := RateAggregation(db1, card, ste, second, user);
    RatingKeepsOneVotePerVoter(db1, card, ste, second, user);
    var fs := r.value.0.feedbacks;
    var i := FindVote(fs, card, ste, user).value;
    var j :| 0 <= j < |fs| && fs[j] == r.value.1;
    assert i == j;
  }
}

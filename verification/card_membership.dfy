/**
  Which items belong to which card, as `create_card` and `delete_card` in
  `main.py` change it: creating a card attaches the listed items to it, and
  deleting one first detaches its items.
 */
module CardMembership {
  import opened Common

  /** The part of the database these two endpoints touch: the card ids
      and, per item id, the item's `card_id`. Feedback rows, which
      `delete_card` leaves in place, are not part of it. */
  datatype Db = Db(cards: set<int>, stes: map<int, Option<int>>)

  /** No item points at a card that does not exist. */
  predicate CardsExist(db: Db) {
    forall s :: s in db.stes && db.stes[s].Some? ==> db.stes[s].value in db.cards
  }

  /** `create_card`: a new card with the id the table hands out, and every
      listed item that exists moved into it. `ste_ids` may be absent. */
  function CreateCard(db: Db, steIds: Option<seq<int>>, newId: int): (r: (Db, int))
    requires newId !in db.cards
    ensures r.1 == newId && r.0.cards == db.cards + {newId}
    ensures r.0.stes.Keys == db.stes.Keys
    ensures forall s :: s in db.stes && s in steIds.GetOr([]) ==> r.0.stes[s] == Some(newId)
    ensures forall s :: s in db.stes && s !in steIds.GetOr([]) ==> r.0.stes[s] == db.stes[s]
  {
    var ids := steIds.GetOr([]);
    var stes := map s | s in db.stes :: if s in ids then Some(newId) else db.stes[s];
    (Db(db.cards + {newId}, stes), newId)
  }

  /** `delete_card`: 404 for an unknown card; otherwise its items lose
      their card and the card is removed. */
  function DeleteCard(db: Db, id: int): (r: Result<Db, HttpError>)
    ensures r.Err? <==> id !in db.cards
    ensures r.Err? ==> r.error == HttpError(404, "Card not found")
    ensures r.Ok? ==> r.value.cards == db.cards - {id}
    ensures r.Ok? ==> r.value.stes.Keys == db.stes.Keys
    ensures r.Ok? ==> forall s :: s in r.value.stes ==> r.value.stes[s] != Some(id)
    ensures r.Ok? ==> forall s :: s in db.stes && db.stes[s] != Some(id) ==> r.value.stes[s] == db.stes[s]
  {
    if id !in db.cards then Err(HttpError(404, "Card not found"))
    else
      Ok(Db(db.cards - {id}, map s | s in db.stes :: if db.stes[s] == Some(id) then None else db.stes[s]))
  }

  /** Creating and deleting cards never leaves an item pointing at a card
      that does not exist. */
  lemma MembershipKeepsCardsReal(db: Db, steIds: Option<seq<int>>, newId: int, id: int)
    requires CardsExist(db)
    ensures newId !in db.cards ==> CardsExist(CreateCard(db, steIds, newId).0)
    ensures DeleteCard(db, id).Ok? ==> CardsExist(DeleteCard(db, id).value)
  {
  }

  /** Deleting a card just created gives back the cards, and leaves the
      attached items with no card. */
  lemma CreateThenDelete(db: Db, steIds: Option<seq<int>>, newId: int)
    requires newId !in db.cards
    requires forall s :: s in db.stes ==> db.stes[s] != Some(newId)
    ensures var created := CreateCard(db, steIds, newId).0;
      && DeleteCard(created, newId).Ok?
      && DeleteCard(created, newId).value.cards == db.cards
      && forall s :: s in db.stes ==>
           DeleteCard(created, newId).value.stes[s] == (if s in steIds.GetOr([]) then None else db.stes[s])
  {
  }
}

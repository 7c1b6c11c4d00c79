/** The decks table: one record per deck id holding the original card set
    (`cards`), the drawn pile (`piged`) and the upcoming pile (`upcoming`). */
module DeckStore {
  import opened Wrappers
  import opened Cards

  /** A deck identifier, the table's primary key. */
  type DeckId = string

  /** One row of the decks table, already decoded from its JSON columns. */
  datatype DeckRecord = DeckRecord(cards: seq<Card>, piged: seq<DrawnCard>, upcoming: seq<Card>)

  type Store = map<DeckId, DeckRecord>

  /** Row lookup by primary key. */
  function Get(store: Store, id: DeckId): (r: Option<DeckRecord>)
    ensures r.Some? <==> id in store
    ensures r.Some? ==> r.value == store[id]
  {
    if id in store then Some(store[id]) else None
  }

  /** INSERT of a new deck whose drawn pile is empty and whose upcoming pile is
      its whole card set. The primary key makes a second insert of the same id
      fail, leaving the table as it was. */
  function Insert(store: Store, id: DeckId, cards: seq<Card>): (r: Option<Store>)
    ensures r.None? <==> id in store
    ensures r.Some? ==> r.value.Keys == store.Keys + {id}
    ensures r.Some? ==> r.value[id] == DeckRecord(cards, [], cards)
    ensures r.Some? ==> forall other :: other in store ==> r.value[other] == store[other]
  {
    if id in store then None else Some(store[id := DeckRecord(cards, [], cards)])
  }

  /** `after` differs from `before` at most in the upcoming pile of deck `id`:
      same ids, same full card sets, same drawn piles, other decks untouched. */
  predicate OnlyUpcomingChanged(before: Store, after: Store, id: DeckId)
  {
    && after.Keys == before.Keys
    && (forall other :: other in before && other != id ==> after[other] == before[other])
    && (id in before ==> after[id].cards == before[id].cards && after[id].piged == before[id].piged)
  }

  /** UPDATE decks SET upcoming = ? WHERE id = ?: replaces one deck's upcoming
      pile; when no row has that id nothing changes. */
  function SetUpcoming(store: Store, id: DeckId, upcoming: seq<Card>): (r: Store)
    ensures OnlyUpcomingChanged(store, r, id)
    ensures id in store ==> r[id].upcoming == upcoming
    ensures id !in store ==> r == store
  {
    if id in store then store[id := store[id].(upcoming := upcoming)] else store
  }

  /** Two writes of the upcoming pile leave what the second one wrote. */
  lemma SetUpcomingTwice(store: Store, id: DeckId, first: seq<Card>, second: seq<Card>)
    ensures SetUpcoming(SetUpcoming(store, id, first), id, second) == SetUpcoming(store, id, second)
  {
  }
}

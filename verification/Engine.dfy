/** The deck operations, one pure transition per request kind. Mutating
    requests return the next store and the deck view sent back; read-only
    requests return only the listing, so they cannot change the store. */
module Engine {
  import opened Wrappers
  import opened Cards
  import opened DeckStore
  import Shuffling
  import Text

  /** The failures the service reports, one per error message it sends. */
  datatype DeckError =
    | TooManyPacks          // "Too many Deckes"
    | CreateFailed          // "Error creating deck"
    | InvalidNumberOfCards  // "Invalid number of cards"
    | DeckNotFound          // "Deck not found"
    | DeckEmpty             // "Deck empty"
    | InvalidCount          // "Invalid count"

  /** Largest pack count a new deck may ask for. */
  const MaxPacks: int := 10

  /** The JSON deck object of a reply: id, a list of cards, remaining count. */
  datatype DeckView = DeckView(id: DeckId, cards: seq<Card>, remaining: nat)

  /** A successful mutation: the next store and the reply sent back. */
  datatype Reply = Reply(store: Store, view: DeckView)

  function Min(a: int, b: int): int
  {
    if a <= b then a else b
  }

  /** The pack count of a new-deck request: the number given in the path, or 1
      when that segment is not an integer. There is no lower bound. */
  function PackCount(packArg: Option<int>): int
  {
    match packArg
    case Some(n) => n
    case None => 1
  }

  /** createDeck: reject more than ten packs; otherwise insert the generated
      cards under the fresh id with an empty drawn pile. */
  function CreateDeck(store: Store, id: DeckId, packArg: Option<int>, jokers: bool): (r: Result<Reply, DeckError>)
    ensures PackCount(packArg) > MaxPacks ==> r == Failure(TooManyPacks)
    ensures PackCount(packArg) <= MaxPacks && id in store ==> r == Failure(CreateFailed)
    ensures r.Success? <==> PackCount(packArg) <= MaxPacks && id !in store
    ensures r.Success? ==>
      && r.value.store.Keys == store.Keys + {id}
      && (forall other :: other in store ==> r.value.store[other] == store[other])
      && r.value.store[id].cards == Generate(PackCount(packArg), jokers)
      && r.value.store[id].upcoming == r.value.store[id].cards
      && r.value.store[id].piged == []
      && r.value.view == DeckView(id, r.value.store[id].cards, |r.value.store[id].cards|)
  {
    var packs := PackCount(packArg);
    if packs > MaxPacks then Failure(TooManyPacks)
    else
      var cards := Generate(packs, jokers);
      match Insert(store, id, cards)
      case None => Failure(CreateFailed)
      case Some(next) => Success(Reply(next, DeckView(id, cards, |cards|)))
  }

  /** drawCards: take up to `count` cards from the front of the upcoming pile.
      Only the upcoming pile is written back; the drawn pile is not. */
  function Draw(store: Store, id: DeckId, countArg: Option<int>): (r: Result<Reply, DeckError>)
    ensures countArg.None? || countArg.value < 1 ==> r == Failure(InvalidNumberOfCards)
    ensures countArg.Some? && countArg.value >= 1 && id !in store ==> r == Failure(DeckNotFound)
    ensures countArg.Some? && countArg.value >= 1 && id in store && store[id].upcoming == [] ==> r == Failure(DeckEmpty)
    ensures r.Success? <==> countArg.Some? && countArg.value >= 1 && id in store && store[id].upcoming != []
    ensures r.Success? ==>
      && OnlyUpcomingChanged(store, r.value.store, id)
      && r.value.view.id == id
      && |r.value.view.cards| == Min(countArg.value, |store[id].upcoming|)
      && r.value.view.cards + r.value.store[id].upcoming == store[id].upcoming
      && r.value.view.remaining == |r.value.store[id].upcoming|
  {
    if countArg.None? || countArg.value < 1 then Failure(InvalidNumberOfCards)
    else
      match Get(store, id)
      case None => Failure(DeckNotFound)
      case Some(deck) =>
        if |deck.upcoming| == 0 then Failure(DeckEmpty)
        else
          var n := Min(countArg.value, |deck.upcoming|);
          var drawn := deck.upcoming[..n];
          var rest := deck.upcoming[n..];
          assert drawn + rest == deck.upcoming;
          Success(Reply(SetUpcoming(store, id, rest), DeckView(id, drawn, |rest|)))
  }

  /** shuffleDeck: reorder the upcoming pile with the shuffle driven by
      `choose` and write it back; the reply lists the new upcoming order. */
  function ShuffleDeck(store: Store, id: DeckId, choose: Shuffling.Draws): (r: Result<Reply, DeckError>)
    ensures r.Success? <==> id in store
    ensures id !in store ==> r == Failure(DeckNotFound)
    ensures r.Success? ==>
      && OnlyUpcomingChanged(store, r.value.store, id)
      && multiset(r.value.store[id].upcoming) == multiset(store[id].upcoming)
      && |r.value.store[id].upcoming| == |store[id].upcoming|
      && r.value.view == DeckView(id, r.value.store[id].upcoming, |store[id].upcoming|)
  {
    match Get(store, id)
    case None => Failure(DeckNotFound)
    case Some(deck) =>
      var shuffled := Shuffling.Shuffle(deck.upcoming, choose);
      Success(Reply(SetUpcoming(store, id, shuffled), DeckView(id, shuffled, |shuffled|)))
  }

  /** addCards: append the code-only cards parsed from the comma-separated
      text to the upcoming pile. The reply lists the original card set
      followed by the whole new upcoming pile. */
  function AddCards(store: Store, id: DeckId, text: string): (r: Result<Reply, DeckError>)
    ensures r.Success? <==> id in store
    ensures id !in store ==> r == Failure(DeckNotFound)
    ensures r.Success? ==>
      && OnlyUpcomingChanged(store, r.value.store, id)
      && |r.value.store[id].upcoming| == |store[id].upcoming| + Text.Occurrences(text, ',') + 1
      && r.value.store[id].upcoming[..|store[id].upcoming|] == store[id].upcoming
      && Text.Join(Codes(r.value.store[id].upcoming[|store[id].upcoming|..]), ',') == text
      && (forall i :: |store[id].upcoming| <= i < |r.value.store[id].upcoming| ==> CodeOnly(r.value.store[id].upcoming[i]))
      && r.value.view == DeckView(id, store[id].cards + r.value.store[id].upcoming, |r.value.store[id].upcoming|)
  {
    match Get(store, id)
    case None => Failure(DeckNotFound)
    case Some(deck) =>
      var added := ParseCards(text);
      var upcoming := deck.upcoming + added;
      assert upcoming[..|deck.upcoming|] == deck.upcoming;
      assert upcoming[|deck.upcoming|..] == added;
      Success(Reply(SetUpcoming(store, id, upcoming), DeckView(id, deck.cards + upcoming, |upcoming|)))
  }

  /** showDrawnCards: the last `count` entries of the drawn pile, or the whole
      pile for a count of 0. */
  function ShowDrawn(store: Store, id: DeckId, countArg: Option<int>): (r: Result<seq<DrawnCard>, DeckError>)
    ensures id !in store ==> r == Failure(DeckNotFound)
    ensures id in store && r.Failure? ==> r.error == InvalidCount
    ensures r.Success? <==> id in store && countArg.Some? && 0 <= countArg.value <= |store[id].piged|
    ensures r.Success? ==>
      && |r.value| == (if countArg.value == 0 then |store[id].piged| else countArg.value)
      && r.value == store[id].piged[|store[id].piged| - |r.value|..]
  {
    match Get(store, id)
    case None => Failure(DeckNotFound)
    case Some(deck) =>
      var pile := deck.piged;
      if countArg.None? || countArg.value < 0 || countArg.value > |pile| then Failure(InvalidCount)
      else if countArg.value > 0 then Success(pile[|pile| - countArg.value..])
      else Success(pile)
  }

  /** showUpcomingCards: the first `count` entries of the upcoming pile, or
      the whole pile for a count of 0. */
  function ShowUpcoming(store: Store, id: DeckId, countArg: Option<int>): (r: Result<seq<Card>, DeckError>)
    ensures id !in store ==> r == Failure(DeckNotFound)
    ensures id in store && r.Failure? ==> r.error == InvalidCount
    ensures r.Success? <==> id in store && countArg.Some? && 0 <= countArg.value <= |store[id].upcoming|
    ensures r.Success? ==>
      && |r.value| == (if countArg.value == 0 then |store[id].upcoming| else countArg.value)
      && r.value == store[id].upcoming[..|r.value|]
  {
    match Get(store, id)
    case None => Failure(DeckNotFound)
    case Some(deck) =>
      var pile := deck.upcoming;
      if countArg.None? || countArg.value < 0 || countArg.value > |pile| then Failure(InvalidCount)
      else if countArg.value > 0 then Success(pile[..countArg.value])
      else Success(pile)
  }
}

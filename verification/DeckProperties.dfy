/** Properties of sequences of requests against the deck store. */
module DeckProperties {
  import opened Wrappers
  import opened Cards
  import opened DeckStore
  import opened Engine
  import Shuffling
  import Text

  /** A mutating request as the serialised request handler receives it. */
  datatype Request =
    | NewDeck(id: DeckId, packArg: Option<int>, jokers: bool)
    | DrawRequest(id: DeckId, countArg: Option<int>)
    | ShuffleRequest(id: DeckId, choose: Shuffling.Draws)
    | AddRequest(id: DeckId, text: string)

  /** The store after one request; a failed request leaves it as it was. */
  function Apply(store: Store, req: Request): Store
  {
    var r := match req
      case NewDeck(id, packArg, jokers) => CreateDeck(store, id, packArg, jokers)
      case DrawRequest(id, countArg) => Draw(store, id, countArg)
      case ShuffleRequest(id, choose) => ShuffleDeck(store, id, choose)
      case AddRequest(id, text) => AddCards(store, id, text);
    if r.Success? then r.value.store else store
  }

  /** The store after the requests, applied one at a time in order. */
  function Run(store: Store, reqs: seq<Request>): Store
    decreases |reqs|
  {
    if |reqs| == 0 then store else Run(Apply(store, reqs[0]), reqs[1..])
  }

  /** No deck has anything in its drawn pile. */
  predicate NoDrawHistory(store: Store)
  {
    forall id :: id in store ==> store[id].piged == []
  }

  /** No request ever adds to a drawn pile, and no request changes the
      original card set of an existing deck or removes a deck. */
  lemma ApplyFrame(store: Store, req: Request)
    ensures store.Keys <= Apply(store, req).Keys
    ensures forall id :: id in store ==> Apply(store, req)[id].cards == store[id].cards
    ensures forall id :: id in store ==> Apply(store, req)[id].piged == store[id].piged
    ensures NoDrawHistory(store) ==> NoDrawHistory(Apply(store, req))
  {
  }

  /** Whatever requests have been served, starting from an empty table every
      drawn pile is still empty: draws write back only the upcoming pile. */
  lemma {:induction false} RunKeepsNoDrawHistory(store: Store, reqs: seq<Request>)
    requires NoDrawHistory(store)
    ensures NoDrawHistory(Run(store, reqs))
    decreases |reqs|
  {
    if |reqs| > 0 {
      ApplyFrame(store, reqs[0]);
      RunKeepsNoDrawHistory(Apply(store, reqs[0]), reqs[1..]);
    }
  }

  /** Decks are never removed and their original card sets never change. */
  lemma {:induction false} RunKeepsCardSets(store: Store, reqs: seq<Request>, id: DeckId)
    requires id in store
    ensures id in Run(store, reqs)
    ensures Run(store, reqs)[id].cards == store[id].cards
    decreases |reqs|
  {
    if |reqs| > 0 {
      ApplyFrame(store, reqs[0]);
      RunKeepsCardSets(Apply(store, reqs[0]), reqs[1..], id);
    }
  }

  /** As a consequence, show-drawn succeeds only for a count of 0 and then
      lists nothing, whatever was drawn before. */
  lemma ShowDrawnAfterAnyRequests(reqs: seq<Request>, id: DeckId, countArg: Option<int>)
    ensures var store := Run(map[], reqs);
      ShowDrawn(store, id, countArg) ==
        if id !in store then Failure(DeckNotFound)
        else if countArg == Some(0) then Success([])
        else Failure(InvalidCount)
  {
    RunKeepsNoDrawHistory(map[], reqs);
  }

  /** The drawn and upcoming piles together do not account for the deck: after
      a one-pack deck is created and five cards are drawn, the two piles hold
      47 cards while the deck was created with 52. */
  lemma DrawnAndUpcomingNotConserved()
    ensures
      var created := CreateDeck(map[], "d", Some(1), false);
      && created.Success?
      && |created.value.store["d"].cards| == 52
      && var drawn := Draw(created.value.store, "d", Some(5));
      && drawn.Success?
      && |drawn.value.store["d"].piged| + |drawn.value.store["d"].upcoming| == 47
  {
  }

  /** Adding cards to a deck nothing was drawn from lists every original card
      twice: once from the card set and once from the upcoming pile. */
  lemma AddCardsRepeatsUndrawnCards(store: Store, id: DeckId, text: string)
    requires id in store
    requires store[id].upcoming == store[id].cards
    ensures AddCards(store, id, text).Success?
    ensures var cards := store[id].cards;
      var listed := AddCards(store, id, text).value.view.cards;
      && |listed| == 2 * |cards| + Text.Occurrences(text, ',') + 1
      && listed[..|cards|] == cards
      && listed[|cards|..2 * |cards|] == cards
      && listed[2 * |cards|..] == ParseCards(text)
  {
    var cards := store[id].cards;
    var listed := AddCards(store, id, text).value.view.cards;
    assert listed == cards + (cards + ParseCards(text));
  }

  /** Drawing `a` cards and then `b` more, while the first draw leaves some
      behind, gives the same cards and the same store as one draw of a + b. */
  lemma DrawTwiceIsDrawOnce(store: Store, id: DeckId, a: int, b: int)
    requires id in store
    requires 1 <= a < |store[id].upcoming|
    requires 1 <= b
    ensures Draw(store, id, Some(a)).Success?
    ensures var first := Draw(store, id, Some(a)).value;
      var second := Draw(first.store, id, Some(b));
      var once := Draw(store, id, Some(a + b));
      && second.Success? && once.Success?
      && second.value.store == once.value.store
      && first.view.cards + second.value.view.cards == once.value.view.cards
  {
    var up := store[id].upcoming;
    var first := Draw(store, id, Some(a)).value;
    var once := Draw(store, id, Some(a + b)).value;
    var k := Min(a + b, |up|);
    assert first.store[id].upcoming == up[a..];
    assert once.view.cards == up[..k];
    var second := Draw(first.store, id, Some(b)).value;
    assert second.view.cards == up[a..][..k - a];
    assert up[..a] + up[a..][..k - a] == up[..k];
    assert second.store[id].upcoming == up[k..];
    assert once.store[id].upcoming == up[k..];
  }

  /** Drawing every remaining card leaves the deck empty, and the next draw
      fails with DeckEmpty rather than returning nothing. */
  lemma OverdrawEmptiesThenFails(store: Store, id: DeckId, count: int, again: int)
    requires id in store && store[id].upcoming != []
    requires count >= |store[id].upcoming| && again >= 1
    ensures Draw(store, id, Some(count)).Success?
    ensures var r := Draw(store, id, Some(count)).value;
      && r.view.cards == store[id].upcoming
      && r.view.remaining == 0
      && Draw(r.store, id, Some(again)) == Failure(DeckEmpty)
  {
    var r := Draw(store, id, Some(count)).value;
    assert r.view.cards + r.store[id].upcoming == store[id].upcoming;
  }

  /** `times` draws of one card each, served one after the other; the cards
      are collected in the order they were drawn. */
  function DrawOneEach(store: Store, id: DeckId, times: nat): Result<(Store, seq<Card>), DeckError>
    decreases times
  {
    if times == 0 then Success((store, []))
    else
      match Draw(store, id, Some(1))
      case Failure(e) => Failure(e)
      case Success(first) =>
        match DrawOneEach(first.store, id, times - 1)
        case Failure(e) => Failure(e)
        case Success(rest) => Success((rest.0, first.view.cards + rest.1))
  }

  /** Serialised one-card draws hand out the upcoming cards in order, each
      exactly once, and touch nothing but the upcoming pile. */
  lemma {:induction false} DrawOneEachTakesPrefix(store: Store, id: DeckId, times: nat)
    requires id in store && times <= |store[id].upcoming|
    ensures DrawOneEach(store, id, times).Success?
    ensures var r := DrawOneEach(store, id, times).value;
      && r.1 == store[id].upcoming[..times]
      && r.0 == SetUpcoming(store, id, store[id].upcoming[times..])
    decreases times
  {
    var up := store[id].upcoming;
    if times == 0 {
      assert up[0..] == up;
      assert store[id := store[id].(upcoming := up)] == store;
    } else {
      var first := Draw(store, id, Some(1)).value;
      assert first.view.cards == up[..1];
      assert first.store == SetUpcoming(store, id, up[1..]);
      DrawOneEachTakesPrefix(first.store, id, times - 1);
      var rest := DrawOneEach(first.store, id, times - 1).value;
      assert DrawOneEach(store, id, times) == Success((rest.0, first.view.cards + rest.1));
      assert up[..1] + up[1..][..times - 1] == up[..times];
      assert up[1..][times - 1..] == up[times..];
      SetUpcomingTwice(store, id, up[1..], up[times..]);
    }
  }

  /** As many one-card draws as there are cards empty the deck and return
      every card once, in pile order. */
  lemma DrawOneEachEmptiesDeck(store: Store, id: DeckId)
    requires id in store
    ensures var n := |store[id].upcoming|;
      && DrawOneEach(store, id, n).Success?
      && DrawOneEach(store, id, n).value.1 == store[id].upcoming
      && id in DrawOneEach(store, id, n).value.0
      && DrawOneEach(store, id, n).value.0[id].upcoming == []
  {
    DrawOneEachTakesPrefix(store, id, |store[id].upcoming|);
  }

  /** Showing the first k upcoming cards lists exactly what a draw of k cards
      would return, without changing the store. */
  lemma ShowUpcomingPreviewsDraw(store: Store, id: DeckId, k: int)
    requires id in store && 1 <= k <= |store[id].upcoming|
    ensures ShowUpcoming(store, id, Some(k)).Success?
    ensures Draw(store, id, Some(k)).Success?
    ensures ShowUpcoming(store, id, Some(k)).value == Draw(store, id, Some(k)).value.view.cards
  {
    var up := store[id].upcoming;
    var d := Draw(store, id, Some(k)).value;
    assert d.view.cards + d.store[id].upcoming == up;
    assert d.view.cards == up[..k];
  }

  /** A shuffle can leave the upcoming pile in any order of its cards, and in
      nothing but such an order. */
  lemma ShuffleDeckReachesEveryOrder(store: Store, id: DeckId, order: seq<Card>)
    requires id in store
    requires multiset(order) == multiset(store[id].upcoming)
    ensures exists choose: Shuffling.Draws ::
      && ShuffleDeck(store, id, choose).Success?
      && ShuffleDeck(store, id, choose).value.store[id].upcoming == order
  {
    var up := store[id].upcoming;
    var choose := Shuffling.ShuffleReachesOrder(up, order);
    assert ShuffleDeck(store, id, choose).value.store[id].upcoming == order;
  }

  /** The request sequence of a typical session, as the code behaves: create a
      one-pack deck, draw five, shuffle, then show both piles. The upcoming
      pile keeps 47 cards, but the drawn pile lists nothing. */
  lemma SessionScenario(choose: Shuffling.Draws)
    ensures
      var created := CreateDeck(map[], "d", Some(1), false);
      && created.Success?
      && created.value.view.remaining == 52
      && var drawn := Draw(created.value.store, "d", Some(5));
      && drawn.Success?
      && |drawn.value.view.cards| == 5
      && drawn.value.view.remaining == 47
      && var shuffled := ShuffleDeck(drawn.value.store, "d", choose);
      && shuffled.Success?
      && shuffled.value.view.remaining == 47
      && multiset(shuffled.value.view.cards) == multiset(drawn.value.store["d"].upcoming)
      && ShowDrawn(shuffled.value.store, "d", Some(0)) == Success([])
      && ShowDrawn(shuffled.value.store, "d", Some(5)) == Failure(InvalidCount)
      && ShowUpcoming(shuffled.value.store, "d", Some(0)) == Success(shuffled.value.store["d"].upcoming)
      && |shuffled.value.store["d"].upcoming| == 47
  {
  }
}

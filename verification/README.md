# Card-deck service: a Dafny model of its deck state machine

The service keeps playing-card decks in a table keyed by deck id. Each row
holds three card lists: `cards` (the set generated when the deck was made),
`piged` (the drawn pile) and `upcoming` (the cards still to be drawn, front
first). Requests create a deck, draw from it, shuffle it, add cards to it,
and list the drawn or upcoming pile. This project models that core of
`main.go` as pure Dafny functions over an immutable store
`map<DeckId, DeckRecord>`: every mutating request returns either an error
kind or the next store together with the deck view sent back; the two
listing requests return only a listing, so they cannot change the store.

Modules:

- `Wrappers` — `Option` and `Result`.
- `Text` — `strings.Split` on a one-character separator, with `Join` as its
  inverse.
- `Cards` — the `Card` and `DrawnCard` records, deck generation
  (`generateCards`, as nested loops and as a closed-form reference) and
  `parseCards`.
- `Shuffling` — `rand.Shuffle` as a Fisher-Yates pass whose random draws
  come from a caller-supplied function.
- `DeckStore` — the decks table: lookup, `INSERT` with its primary key, and
  `UPDATE ... SET upcoming`.
- `Engine` — `createDeck`, `drawCards`, `shuffleDeck`, `addCards`,
  `showDrawnCards`, `showUpcomingCards`.
- `DeckProperties` — properties of sequences of requests applied one at a
  time, as the single request goroutine and the mutex serialise them.

The model follows the code as written, including where it departs from the
service's documented design:

- A draw writes back only the upcoming pile (main.go:296). Drawn cards are
  never appended to `piged`, which stays `[]` for every deck, so listing the
  drawn pile succeeds only with count 0 and lists nothing
  (`ShowDrawnAfterAnyRequests`). The drawn and upcoming piles therefore do
  not account for the deck (`DrawnAndUpcomingNotConserved`).
- The add-cards reply is `cards ++ upcoming` (main.go:379), so on a deck
  whose upcoming pile is still exactly its card set (nothing drawn, shuffled
  or added since creation) every original card is listed twice
  (`AddCardsRepeatsUndrawnCards`).
- The pack count has an upper bound of 10 and no lower bound: 0 or a
  negative count gives an empty deck (main.go:124, 155). A pack count that is
  not an integer means 1.
- `parseCards("")` gives one card with an empty code, because splitting the
  empty string gives one empty piece.
- A duplicate deck id makes the `INSERT` fail on the primary key, which the
  code reports as "Error creating deck" (`CreateFailed`). It is not a
  precondition.

## Model

| member | source | states |
|---|---|---|
| `Cards.GenerateCards` | main.go:150-173 | The nested pack/suit/rank loops, with two jokers per pack when asked, build exactly the closed-form deck `Generate`: pack after pack, each pack the same sequence. |
| `Cards.RankLoop` | main.go:157-165 | The innermost loop builds one suit's thirteen cards in rank order 2..10, j, q, k, a, each with code rank+suit and image `/static/<code>.svg`. |
| `Cards.Generate` | main.go:150-173 | A deck of n packs has n * 52 cards, or n * 54 with jokers, and no cards at all when n <= 0. |
| `Cards.Pack` | main.go:152-170 | One pack holds 52 cards, or 54 when jokers are asked for. |
| `Cards.PackLayout` | main.go:152-170 | Within a pack, position 13 * s + r holds rank r of suit s in suit order h, d, c, s; with jokers, positions 52 and 53 hold the two jokers. |
| `Cards.PackCards` | main.go:156-170 | Every card of a pack has code == rank + suit and image == `/static/` + code + `.svg`; it is a joker exactly at positions 52 and above, otherwise its rank and suit come from the fixed lists. |
| `Cards.GenerateBlocks` | main.go:155-171 | Pack p of a generated deck occupies its own contiguous block starting at p * PackSize, and that block is one whole pack. |
| `Cards.GenerateWellFormed` | main.go:156-170 | Every generated card is well formed (code, rank, suit and image agree) and is a standard card or a joker; without jokers no joker appears. |
| `Text.Split` | main.go:393 | Splitting on ',' gives one more piece than there are commas (so at least one piece), and no piece contains a comma. |
| `Text.JoinSplit` | main.go:393 | Joining the pieces of a split with the separator gives back the original string. |
| `Text.SplitJoin` | main.go:393 | Splitting a join of one or more separator-free pieces gives back exactly those pieces. |
| `Cards.ParseCards` | main.go:391-397 | parseCards gives one code-only card (empty rank, suit, image) per comma-separated piece, at least one card, and the codes joined with ',' are the input text. |
| `Cards.ParseCardsOfCodes` | main.go:391-397 | Parsing a comma-joined list of comma-free codes yields cards carrying exactly those codes, in order. |
| `Shuffling.Pick` | main.go:329 | The position chosen at step i of the shuffle is one of 0..i. |
| `Shuffling.Swap` | main.go:329-331 | The swap callback keeps the length and puts the card from position j at position i and the card from position i at position j. |
| `Shuffling.SwapLeavesOthers` | main.go:330 | A swap leaves every position other than the two exchanged ones as it was. |
| `Shuffling.SwapPermutes` | main.go:330 | A swap keeps the multiset of cards. |
| `Shuffling.ShuffleDownPermutes` | main.go:329-331 | The Fisher-Yates steps from position i down to 1 keep the multiset of cards. |
| `Shuffling.Shuffle` | main.go:328-331 | The shuffled pile is a permutation of the original: same length, same multiset. |
| `Shuffling.ShuffleShortPile` | main.go:329-331 | A pile of zero or one card is returned unchanged whatever the random draws. |
| `Shuffling.ShuffleDownUsesDrawsUpTo` | main.go:329-331 | The steps from position i down to 1 depend on the random source only through its draws for steps 1..i: two sources that agree there give the same result. |
| `Shuffling.ShuffleReachesOrder` | main.go:328-331 | For every permutation of the pile there is a random source under which the shuffle produces exactly it. |
| `DeckStore.Get` | main.go:257-261 | A lookup finds a row exactly when the id is in the table, and returns that row. |
| `DeckStore.Insert` | main.go:134-138 | The insert fails exactly when the id is already a key; otherwise it adds one row with `piged = []` and `upcoming = cards` and leaves every other row as it was. |
| `DeckStore.SetUpcoming` | main.go:296 | The update replaces only the named deck's upcoming pile; ids, full card sets, drawn piles and other decks are unchanged, and an unknown id changes nothing. |
| `DeckStore.SetUpcomingTwice` | main.go:296 | Two updates of the same deck's upcoming pile leave the table as the second update alone would. |
| `Engine.CreateDeck` | main.go:108-143 | More than 10 packs is rejected with no change; otherwise (fresh id) the store gains exactly the new id, whose cards and upcoming pile are the generated deck and whose drawn pile is empty, and the reply reports remaining = number of cards. |
| `Engine.Draw` | main.go:246-308 | Fails with no change for a count that is not an integer or below 1, then for an unknown deck, then for an empty upcoming pile; otherwise returns min(count, pile size) cards which followed by the new upcoming pile give the old one, reports remaining = new pile size, and changes nothing but that deck's upcoming pile. |
| `Engine.ShuffleDeck` | main.go:310-351 | Fails only for an unknown deck; otherwise the new upcoming pile is a permutation of the old, nothing else changes, and the reply lists the new pile with remaining = its size. |
| `Engine.AddCards` | main.go:353-389 | Fails only for an unknown deck; otherwise the new upcoming pile is the old one followed by one code-only card per comma-separated piece of the text, nothing else changes, and the reply lists the full card set followed by the new upcoming pile, with remaining = new pile size. |
| `Engine.ShowDrawn` | main.go:399-429 | Unknown deck is an error; a count that is not an integer, negative or above the pile size is an error; otherwise it lists the last `count` drawn entries, or the whole pile for 0. |
| `Engine.ShowUpcoming` | main.go:431-461 | Unknown deck is an error; a count that is not an integer, negative or above the pile size is an error; otherwise it lists the first `count` upcoming cards, or the whole pile for 0. |
| `DeckProperties.ApplyFrame` | main.go:289-299 | No request removes a deck, changes a deck's original card set or adds to a drawn pile. |
| `DeckProperties.RunKeepsNoDrawHistory` | main.go:281-299 | Starting from decks with empty drawn piles, any sequence of requests leaves every drawn pile empty. |
| `DeckProperties.RunKeepsCardSets` | main.go:372-377 | After any sequence of requests an existing deck still exists with the card set it was created with. |
| `DeckProperties.ShowDrawnAfterAnyRequests` | main.go:403-425 | From an empty table and after any requests, show-drawn answers DeckNotFound for unknown decks, the empty list for count 0, and InvalidCount for every other count. |
| `DeckProperties.DrawnAndUpcomingNotConserved` | main.go:274-299 | Creating a one-pack deck (52 cards) and drawing five leaves 47 cards in the drawn and upcoming piles together. |
| `DeckProperties.AddCardsRepeatsUndrawnCards` | main.go:379-385 | On a deck whose upcoming pile is still its full card set, the add-cards reply lists the card set twice, then the parsed cards. |
| `DeckProperties.DrawTwiceIsDrawOnce` | main.go:274-279 | A draw of a cards that leaves some behind followed by a draw of b gives the same cards and the same store as one draw of a + b. |
| `DeckProperties.OverdrawEmptiesThenFails` | main.go:269-279 | Drawing at least as many cards as remain returns the whole upcoming pile with remaining 0, and the next draw fails with DeckEmpty. |
| `DeckProperties.DrawOneEachTakesPrefix` | main.go:274-304 | k serialised one-card draws (k at most the pile size) return the first k upcoming cards in order and leave the rest as the upcoming pile. |
| `DeckProperties.DrawOneEachEmptiesDeck` | main.go:274-304 | As many serialised one-card draws as there are cards hand out every card exactly once, in pile order, and leave the pile empty. |
| `DeckProperties.ShowUpcomingPreviewsDraw` | main.go:448-457 | For 1 <= k <= pile size, show-upcoming with count k lists exactly the cards a draw of k would return. |
| `DeckProperties.ShuffleDeckReachesEveryOrder` | main.go:327-339 | For every ordering of a deck's upcoming cards some random source makes shuffle store exactly that ordering. |
| `DeckProperties.SessionScenario` | main.go:104-461 | Create one pack (52 remaining), draw 5 (5 cards, 47 remaining), shuffle (47 remaining, same multiset), then show-drawn(0) lists nothing, show-drawn(5) is InvalidCount, and show-upcoming(0) lists the 47 upcoming cards. |

## Left out

- HTTP routing, URL path splitting, status codes and JSON encoding of replies (main.go:104-122, 175-244, 463-470): the model takes already-parsed arguments and returns an error kind instead of a status and message.
- `strconv.Atoi`: a numeric path segment arrives as `Option<int>` (None when it is not an integer); Atoi's 64-bit range limit is not modelled, integers are unbounded.
- The jokers flag arrives as a boolean; the comparison of the path segment with "true" is routing.
- SQLite and JSON: the store holds decoded sequences (the JSON round trip is treated as lossless, see the line on card codes below), so the "Error parsing ..." and "Error marshalling ..." branches cannot arise; `UPDATE` failures ("Error updating deck", "Error adding cards") are not modelled: writes are assumed to succeed. The `INSERT` failure is modelled only for a duplicate id. add-cards ignores decode errors of its two columns, which cannot arise here either.
- The mutex and the request channel with its single goroutine (main.go:19-22, 73, 78-89): each transition is atomic by construction, and `DeckProperties.Run` applies requests one after another.
- `uuid.New`: the new deck id is a parameter.
- `time.Now` in a draw (main.go:281-287): the timestamped `DrawnCard` list is built and then discarded (the reply carries only the drawn cards and nothing is stored), so it has no observable effect and is not modelled.
- `rand.Seed` and the random source: the draws come from a parameter `choose`, and position j for step i is `choose(i) % (i + 1)`; Go's bounded draw (its unexported `int31n` for piles under 2^31 cards, a multiply-shift with rejection) reaches its range differently, which changes only which raw draws map to which position.
- Engine.ShuffleDeck: states only that the new order is a permutation of the old (with `ShuffleDeckReachesEveryOrder`, that every permutation is possible); the uniform distribution of the shuffle is not modelled.
- Card codes, ranks, suits and images are Dafny strings, sequences of Unicode characters, while Go strings are byte sequences. A code that is not valid UTF-8 (a `cards` query value such as `%FF`, main.go:188, 393) cannot be expressed, and the replacement of invalid UTF-8 by U+FFFD when `json.Marshal` stores the pile (main.go:372) is not modelled: the store keeps every code verbatim.
- The `omitempty` tag on the reply's card list (an empty list is left out of the JSON) is an encoding detail; the view holds the empty sequence.

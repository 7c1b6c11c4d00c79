/** Playing cards: the card records a deck stores, the deterministic generation
    of a multi-pack deck, and the code-only cards that add-cards parses. */
module Cards {
  import Text

  /** A card as stored in a deck record. Generated cards have a code that is
      the rank followed by the suit; added cards carry only a code. */
  datatype Card = Card(code: string, rank: string, suit: string, image: string)

  /** An entry of the drawn pile: a card code and the time it was drawn. */
  datatype DrawnCard = DrawnCard(code: string, time: string)

  /** Rank order within a suit. */
  const Ranks: seq<string> := ["2", "3", "4", "5", "6", "7", "8", "9", "10", "j", "q", "k", "a"]

  /** Suit order within a pack. */
  const Suits: seq<string> := ["h", "d", "c", "s"]

  /** The display image of a card, derived from its code. */
  function ImageOf(code: string): string
  {
    "/static/" + code + ".svg"
  }

  /** A card whose code, rank, suit and image agree with each other. */
  predicate WellFormed(c: Card)
  {
    c.code == c.rank + c.suit && c.image == ImageOf(c.code)
  }

  function MakeCard(rank: string, suit: string): Card
  {
    Card(rank + suit, rank, suit, ImageOf(rank + suit))
  }

  const Joker: Card := Card("joker", "joker", "", "/static/joker.svg")

  /** Number of cards in one pack. */
  function PackSize(jokers: bool): nat
  {
    if jokers then 54 else 52
  }

  /** The thirteen cards of one suit, in rank order. */
  function SuitRun(suit: string): seq<Card>
  {
    seq(|Ranks|, r requires 0 <= r < |Ranks| => MakeCard(Ranks[r], suit))
  }

  /** The runs of the first `n` suits, one after the other. */
  function SuitRuns(n: nat): (runs: seq<Card>)
    requires n <= |Suits|
    ensures |runs| == 13 * n
  {
    if n == 0 then [] else SuitRuns(n - 1) + SuitRun(Suits[n - 1])
  }

  /** One pack in generation order: the four suit runs, then the jokers. */
  function Pack(jokers: bool): (pack: seq<Card>)
    ensures |pack| == PackSize(jokers)
  {
    SuitRuns(|Suits|) + (if jokers then [Joker, Joker] else [])
  }

  /** Within the first `n` suit runs, position 13 * s + r holds rank `r` of
      suit `s`. */
  lemma {:induction false} SuitRunsLayout(n: nat, s: int, r: int)
    requires n <= |Suits|
    requires 0 <= s < n && 0 <= r < |Ranks|
    ensures SuitRuns(n)[13 * s + r] == MakeCard(Ranks[r], Suits[s])
  {
    if s < n - 1 {
      SuitRunsLayout(n - 1, s, r);
    }
  }

  /** A pack has 52 standard cards in suit-major order (hearts, diamonds,
      clubs, spades; ranks 2 to ace), followed by two jokers when requested. */
  lemma PackLayout(jokers: bool, s: int, r: int)
    requires 0 <= s < |Suits| && 0 <= r < |Ranks|
    ensures |Pack(jokers)| == PackSize(jokers)
    ensures Pack(jokers)[13 * s + r] == MakeCard(Ranks[r], Suits[s])
    ensures jokers ==> Pack(jokers)[52] == Joker && Pack(jokers)[53] == Joker
  {
    SuitRunsLayout(|Suits|, s, r);
  }

  /** Every card of a pack is a well-formed standard card or a joker; the
      joker appears only when requested. */
  lemma PackCards(jokers: bool, k: int)
    requires 0 <= k < |Pack(jokers)|
    ensures WellFormed(Pack(jokers)[k])
    ensures Pack(jokers)[k] == Joker || (Pack(jokers)[k].rank in Ranks && Pack(jokers)[k].suit in Suits)
    ensures Pack(jokers)[k] == Joker <==> k >= 52
  {
    if k < 52 {
      PackLayout(jokers, k / 13, k % 13);
    }
  }

  /** The cards of `packs` packs, pack after pack; no cards for a count of zero
      or less. */
  function Generate(packs: int, jokers: bool): (cards: seq<Card>)
    ensures |cards| == if packs <= 0 then 0 else packs * PackSize(jokers)
    decreases packs
  {
    if packs <= 0 then [] else Generate(packs - 1, jokers) + Pack(jokers)
  }

  /** generateCards: a loop over packs; each pack is a loop over suits, then
      two jokers when requested. */
  method GenerateCards(packs: int, jokers: bool) returns (cards: seq<Card>)
    ensures cards == Generate(packs, jokers)
  {
    cards := [];
    var i := 0;
    while i < packs
      invariant i == 0 || 0 < i <= packs
      invariant cards == Generate(i, jokers)
    {
      var s := 0;
      var pack := [];
      while s < |Suits|
        invariant 0 <= s <= |Suits|
        invariant pack == SuitRuns(s)
      {
        var run := RankLoop(Suits[s]);
        pack := pack + run;
        s := s + 1;
      }
      if jokers {
        pack := pack + [Joker, Joker];
      }
      cards := cards + pack;
      i := i + 1;
    }
  }

  /** The innermost loop of generateCards: the cards of one suit, rank by rank. */
  method RankLoop(suit: string) returns (run: seq<Card>)
    ensures run == SuitRun(suit)
  {
    run := [];
    var r := 0;
    while r < |Ranks|
      invariant 0 <= r <= |Ranks|
      invariant run == SuitRun(suit)[..r]
    {
      var code := Ranks[r] + suit;
      assert SuitRun(suit)[..r + 1] == SuitRun(suit)[..r] + [MakeCard(Ranks[r], suit)];
      run := run + [Card(code, Ranks[r], suit, "/static/" + code + ".svg")];
      r := r + 1;
    }
  }

  /** Pack `p` of a generated deck occupies its own block of positions
      p * PackSize .. (p + 1) * PackSize, and that block is one whole pack. */
  lemma {:induction false} GenerateBlocks(packs: int, jokers: bool, p: int, k: int)
    requires 0 <= p < packs
    requires 0 <= k < PackSize(jokers)
    ensures p * PackSize(jokers) + k < |Generate(packs, jokers)|
    ensures Generate(packs, jokers)[p * PackSize(jokers) + k] == Pack(jokers)[k]
    decreases packs
  {
    var n := PackSize(jokers);
    var prefix := Generate(packs - 1, jokers);
    assert |prefix| == (packs - 1) * n;
    if p < packs - 1 {
      GenerateBlocks(packs - 1, jokers, p, k);
    } else {
      assert p * n + k == |prefix| + k;
    }
  }

  /** Every generated card is either a standard card or a joker, and its
      code, rank, suit and image agree. */
  lemma {:induction false} GenerateWellFormed(packs: int, jokers: bool, i: int)
    requires 0 <= i < |Generate(packs, jokers)|
    ensures WellFormed(Generate(packs, jokers)[i])
    ensures Generate(packs, jokers)[i] == Joker || (Generate(packs, jokers)[i].rank in Ranks && Generate(packs, jokers)[i].suit in Suits)
    ensures !jokers ==> Generate(packs, jokers)[i] != Joker
    decreases packs
  {
    var prefix := Generate(packs - 1, jokers);
    if i < |prefix| {
      GenerateWellFormed(packs - 1, jokers, i);
    } else {
      PackCards(jokers, i - |prefix|);
    }
  }

  /** The code of each card, in order. */
  function Codes(cards: seq<Card>): (codes: seq<string>)
    ensures |codes| == |cards|
  {
    seq(|cards|, i requires 0 <= i < |cards| => cards[i].code)
  }

  /** A card supplied by code alone: no rank, suit or image. */
  predicate CodeOnly(c: Card)
  {
    c.rank == "" && c.suit == "" && c.image == ""
  }

  /** parseCards: one code-only card per comma-separated piece of the text,
      so never fewer than one card. */
  function ParseCards(text: string): (cards: seq<Card>)
    ensures |cards| == Text.Occurrences(text, ',') + 1
    ensures forall i :: 0 <= i < |cards| ==> CodeOnly(cards[i]) && ',' !in cards[i].code
    ensures Text.Join(Codes(cards), ',') == text
  {
    var pieces := Text.Split(text, ',');
    var cards := seq(|pieces|, i requires 0 <= i < |pieces| => Card(pieces[i], "", "", ""));
    assert Codes(cards) == pieces;
    Text.JoinSplit(text, ',');
    cards
  }

  /** The cards parsed from a comma-separated list of comma-free codes carry
      exactly those codes. */
  lemma ParseCardsOfCodes(codes: seq<string>)
    requires |codes| >= 1
    requires forall i :: 0 <= i < |codes| ==> ',' !in codes[i]
    ensures Codes(ParseCards(Text.Join(codes, ','))) == codes
  {
    Text.SplitJoin(codes, ',');
    var cards := ParseCards(Text.Join(codes, ','));
    Text.SplitJoin(Codes(cards), ',');
  }
}

/** The 32- or 36-card deck the round engine deals from: four suits, eight
    ranks for four players or nine for six, each card worth its rank's points,
    shuffled before use. */
module Deck {
  import opened Results
  import opened Seqs
  import opened Faces
  import opened Shuffle

  datatype Card = Card(suit: Suit, rank: Rank, points: int)

  datatype DeckError = UnsupportedPlayerCount

  /** The ranks of one suit for a table of `numPlayers`; none for any other
      count than 4 or 6. */
  function RanksFor(numPlayers: int): (rs: Option<seq<Rank>>)
    ensures rs.Some? <==> numPlayers == 4 || numPlayers == 6
    ensures rs.Some? ==> Distinct(rs.value)
    ensures rs.Some? ==> |rs.value| == (if numPlayers == 4 then 8 else 9)
    ensures rs.Some? ==> rs.value[..6] == [Jack, Nine, Ace, Ten, King, Queen]
    ensures rs.Some? ==> rs.value[6..] == if numPlayers == 4 then [Eight, Seven] else [Eight, Seven, Six]
  {
    var common := [Jack, Nine, Ace, Ten, King, Queen];
    if numPlayers == 4 then Some(common + [Eight, Seven])
    else if numPlayers == 6 then Some(common + [Eight, Seven, Six])
    else None
  }

  function MakeCard(s: Suit, r: Rank): Card
  {
    Card(s, r, Points(r))
  }

  /** Number of cards for a supported table size. */
  function DeckSize(numPlayers: int): nat
  {
    if numPlayers == 4 then 32 else if numPlayers == 6 then 36 else 0
  }

  /** Every suit crossed with every rank, before shuffling. */
  function OrderedDeck(rs: seq<Rank>): seq<Card>
  {
    Grid(Suits, rs, MakeCard)
  }

  /** Builds the ordered deck for the table size and shuffles it with the
      given draws. */
  function CreateDeck(numPlayers: int, draws: seq<int>): (r: Result<seq<Card>, DeckError>)
    requires numPlayers == 4 || numPlayers == 6 ==> ValidDraws(draws, DeckSize(numPlayers))
    ensures r.Err? <==> numPlayers != 4 && numPlayers != 6
    ensures r.Ok? ==> |r.value| == DeckSize(numPlayers) == 4 * |RanksFor(numPlayers).value|
    ensures r.Ok? ==> multiset(r.value) == multiset(OrderedDeck(RanksFor(numPlayers).value))
  {
    match RanksFor(numPlayers)
    case None => Err(UnsupportedPlayerCount)
    case Some(rs) =>
      var ordered := OrderedDeck(rs);
      GridLength(Suits, rs, MakeCard);
      ShuffledPermutes(ordered, draws);
      Ok(Shuffled(ordered, draws))
  }

  /** In any arrangement of the ordered deck each (suit, rank) pair of the
      rank set occurs exactly once, no other card occurs, and every card
      carries its rank's points. */
  lemma ArrangedDeckPairsOnce(rs: seq<Rank>, d: seq<Card>, s: Suit, r: Rank)
    requires Distinct(rs) && multiset(d) == multiset(OrderedDeck(rs))
    ensures multiset(d)[MakeCard(s, r)] == if r in rs then 1 else 0
    ensures forall c :: c in d ==> c.rank in rs && c.points == Points(c.rank)
  {
    SuitsDistinct();
    GridCount(Suits, rs, MakeCard, (c: Card) => c.suit, (c: Card) => c.rank, s, r);
    GridAll(Suits, rs, MakeCard, (c: Card) => c.rank in rs && c.points == Points(c.rank));
    forall c | c in d
      ensures c.rank in rs && c.points == Points(c.rank)
    {
      assert c in multiset(d);
      assert c in OrderedDeck(rs);
    }
  }

  /** In any arrangement of a table's deck the points add up to 28: the ranks
      J, 9, A, 10, K, Q give 7 per suit and the extra ranks 8, 7, 6 nothing. */
  lemma ArrangedDeckTotalPoints(numPlayers: int, d: seq<Card>)
    requires numPlayers == 4 || numPlayers == 6
    requires multiset(d) == multiset(OrderedDeck(RanksFor(numPlayers).value))
    ensures SumOf(d, (c: Card) => c.points) == 28
  {
    var rs := RanksFor(numPlayers).value;
    var pts := (c: Card) => c.points;
    SumOfPermutation(d, OrderedDeck(rs), pts);
    GridSum(Suits, rs, MakeCard, pts, Points);
    SixRanksScoreSeven();
    assert rs == rs[..6] + rs[6..];
    SumOfConcat(rs[..6], rs[6..], Points);
    if numPlayers == 4 {
      assert rs[6..] == [Eight, Seven];
      assert [Eight, Seven][1..] == [Seven];
      assert [Seven][1..] == [];
    } else {
      assert rs[6..] == [Eight, Seven, Six];
      assert [Eight, Seven, Six][1..] == [Seven, Six];
      assert [Seven, Six][1..] == [Six];
      assert [Six][1..] == [];
    }
  }

  /** Each (suit, rank) pair of the table's rank set occurs exactly once in the
      created deck, and no other card occurs. */
  lemma CreateDeckPairsOnce(numPlayers: int, draws: seq<int>, s: Suit, r: Rank)
    requires numPlayers == 4 || numPlayers == 6
    requires ValidDraws(draws, DeckSize(numPlayers))
    ensures multiset(CreateDeck(numPlayers, draws).value)[MakeCard(s, r)]
            == if r in RanksFor(numPlayers).value then 1 else 0
    ensures forall c :: c in CreateDeck(numPlayers, draws).value ==>
              c.rank in RanksFor(numPlayers).value && c.points == Points(c.rank)
  {
    var rs := RanksFor(numPlayers).value;
    var d := CreateDeck(numPlayers, draws).value;
    assert multiset(d) == multiset(OrderedDeck(rs));
    ArrangedDeckPairsOnce(rs, d, s, r);
  }

  /** Whatever the shuffle, the created deck's points add up to 28. */
  lemma CreateDeckTotalPoints(numPlayers: int, draws: seq<int>)
    requires numPlayers == 4 || numPlayers == 6
    requires ValidDraws(draws, DeckSize(numPlayers))
    ensures SumOf(CreateDeck(numPlayers, draws).value, (c: Card) => c.points) == 28
  {
    ArrangedDeckTotalPoints(numPlayers, CreateDeck(numPlayers, draws).value);
  }
}

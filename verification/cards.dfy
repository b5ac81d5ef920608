/** The 24-card catalogue: six ranks per suit, each card carrying an
    identifier, a scoring value and a trick-priority index. */
module Cards {
  import opened Results
  import opened Seqs
  import opened Faces

  datatype Card = Card(id: string, suit: Suit, rank: Rank, value: int, priority: int)

  /** Ranks from the highest trick precedence to the lowest. */
  const RankOrder: seq<Rank> := [Jack, Nine, Ace, Ten, King, Queen]

  /** The ranks the catalogue enumerates per suit (listed separately from
      `RankOrder`, with the same contents). */
  const DeckRanks: seq<Rank> := [Jack, Nine, Ace, Ten, King, Queen]

  /** The identifier `suit-rank`, e.g. "hearts-J". */
  function Id(s: Suit, r: Rank): string
  {
    SuitName(s) + "-" + RankName(r)
  }

  function MakeCard(s: Suit, r: Rank): Card
  {
    Card(Id(s, r), s, r, Points(r), IndexOf(RankOrder, r))
  }

  /** Position of the first `c` in `s`, or `|s|` when there is none. */
  function FirstIndex(s: string, c: char): (i: nat)
    ensures i <= |s|
    ensures i < |s| ==> s[i] == c
    ensures c !in s[..i]
  {
    if |s| == 0 then 0
    else if s[0] == c then 0
    else
      var j := FirstIndex(s[1..], c);
      assert s[..j + 1] == [s[0]] + s[1..][..j];
      j + 1
  }

  function SuitOfName(name: string): Option<Suit>
  {
    if name == "hearts" then Some(Hearts)
    else if name == "diamonds" then Some(Diamonds)
    else if name == "clubs" then Some(Clubs)
    else if name == "spades" then Some(Spades)
    else None
  }

  function RankOfName(name: string): Option<Rank>
  {
    if name == "J" then Some(Jack)
    else if name == "9" then Some(Nine)
    else if name == "A" then Some(Ace)
    else if name == "10" then Some(Ten)
    else if name == "K" then Some(King)
    else if name == "Q" then Some(Queen)
    else if name == "8" then Some(Eight)
    else if name == "7" then Some(Seven)
    else if name == "6" then Some(Six)
    else None
  }

  /** Reads the suit and rank back out of an identifier: the text before the
      first '-' names the suit, the text after it the rank. */
  function ParseId(id: string): Option<(Suit, Rank)>
  {
    var k := FirstIndex(id, '-');
    if k == |id| then None
    else
      match (SuitOfName(id[..k]), RankOfName(id[k + 1..]))
      case (Some(s), Some(r)) => Some((s, r))
      case _ => None
  }

  /** `name-rest` parses back into its parts when `name` holds no '-'. */
  lemma ParseJoined(name: string, rest: string)
    requires '-' !in name
    ensures ParseId(name + "-" + rest) == match (SuitOfName(name), RankOfName(rest))
                                         case (Some(s), Some(r)) => Some((s, r))
                                         case _ => None
  {
    var id := name + "-" + rest;
    var k := FirstIndex(id, '-');
    assert id[|name|] == '-';
    assert forall m :: 0 <= m < |name| ==> id[m] == name[m] != '-';
    assert forall m :: |name| < m <= |id| ==> id[..m][|name|] == '-';
    assert k == |name|;
    assert id[..k] == name;
    assert id[k + 1..] == rest;
  }

  /** An identifier determines its card's suit and rank. */
  lemma ParseIdRoundTrip(s: Suit, r: Rank)
    ensures ParseId(Id(s, r)) == Some((s, r))
  {
    SuitNameReads(s);
    RankNameReads(r);
    ParseJoined(SuitName(s), RankName(r));
  }

  lemma SuitNameReads(s: Suit)
    ensures '-' !in SuitName(s) && SuitOfName(SuitName(s)) == Some(s)
  {
  }

  lemma RankNameReads(r: Rank)
    ensures RankOfName(RankName(r)) == Some(r)
  {
  }

  lemma IdInjective(s1: Suit, r1: Rank, s2: Suit, r2: Rank)
    requires Id(s1, r1) == Id(s2, r2)
    ensures s1 == s2 && r1 == r2
  {
    ParseIdRoundTrip(s1, r1);
    ParseIdRoundTrip(s2, r2);
  }

  /** The 24-card deck: every suit crossed with every catalogue rank, in
      suit order and, within a suit, in catalogue rank order. */
  function GenerateDeck(): (d: seq<Card>)
    ensures |d| == 24
    ensures forall c :: c in d ==> c.rank in DeckRanks && c == MakeCard(c.suit, c.rank)
  {
    GridLength(Suits, DeckRanks, MakeCard);
    GridAll(Suits, DeckRanks, MakeCard, (c: Card) => c.rank in DeckRanks && c == MakeCard(c.suit, c.rank));
    Grid(Suits, DeckRanks, MakeCard)
  }

  /** Each (suit, rank) pair of the catalogue occurs exactly once. */
  lemma GenerateDeckPairsOnce(s: Suit, r: Rank)
    ensures multiset(GenerateDeck())[MakeCard(s, r)] == if r in DeckRanks then 1 else 0
  {
    DeckRanksDistinct();
    CatalogueGridCount(DeckRanks, s, r);
  }

  lemma DeckRanksDistinct()
    ensures Distinct(DeckRanks)
  {
  }

  /** Over every suit and a list of distinct ranks, each listed (suit, rank)
      card occurs once and no other card occurs. */
  lemma CatalogueGridCount(rs: seq<Rank>, s: Suit, r: Rank)
    requires Distinct(rs)
    ensures multiset(Grid(Suits, rs, MakeCard))[MakeCard(s, r)] == if r in rs then 1 else 0
  {
    SuitsDistinct();
    GridCountOfSuit(Suits, rs, MakeCard, (c: Card) => c.suit, (c: Card) => c.rank, s, r);
  }

  /** No two cards of the deck share an identifier. */
  lemma GenerateDeckIdsUnique(i: nat, j: nat)
    requires i < j < |GenerateDeck()|
    ensures GenerateDeck()[i].id != GenerateDeck()[j].id
  {
    var d := GenerateDeck();
    if d[i].id == d[j].id {
      assert d[i] in d && d[j] in d;
      IdInjective(d[i].suit, d[i].rank, d[j].suit, d[j].rank);
      RepeatedCountsTwice(d, i, j);
      GenerateDeckPairsOnce(d[i].suit, d[i].rank);
      assert false;
    }
  }

  /** The values of the whole deck add up to 28 (7 per suit). */
  lemma GenerateDeckValueTotal()
    ensures SumOf(GenerateDeck(), (c: Card) => c.value) == 28
  {
    GridSum(Suits, DeckRanks, MakeCard, (c: Card) => c.value, Points);
    SixRanksScoreSeven();
  }

  /** `priority` is the rank's place in `RankOrder`: J 0, 9 1, A 2, 10 3, K 4, Q 5. */
  lemma PriorityIsRankPosition(s: Suit, k: nat)
    requires k < |RankOrder|
    ensures MakeCard(s, RankOrder[k]).priority == k
  {
    assert Distinct(RankOrder);
    var i := IndexOf(RankOrder, RankOrder[k]);
    assert forall m :: 0 <= m < i ==> RankOrder[..i][m] == RankOrder[m];
  }

  /** Within a suit no two catalogue ranks share a priority. */
  lemma PriorityDistinguishesRanks(r1: Rank, r2: Rank)
    requires r1 in DeckRanks && r2 in DeckRanks
    ensures IndexOf(RankOrder, r1) == IndexOf(RankOrder, r2) <==> r1 == r2
  {
    var i1, i2 := IndexOf(RankOrder, r1), IndexOf(RankOrder, r2);
    assert RankOrder == DeckRanks;
    assert i1 == i2 ==> RankOrder[i1] == r1 && RankOrder[i2] == r2;
  }

  /** Along `RankOrder` values never increase: higher precedence never scores less. */
  lemma ValueFollowsRankOrder(i: nat, j: nat)
    requires i < j < |RankOrder|
    ensures Points(RankOrder[i]) >= Points(RankOrder[j])
  {
  }
}

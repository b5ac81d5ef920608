/** Suits, ranks and the scoring table shared by both card catalogues, and the
    suit-by-rank enumeration both catalogues build their decks with. */
module Faces {
  import opened Seqs

  datatype Suit = Hearts | Diamonds | Clubs | Spades

  datatype Rank = Jack | Nine | Ace | Ten | King | Queen | Eight | Seven | Six

  /** The suits in the order the decks are built. */
  const Suits: seq<Suit> := [Hearts, Diamonds, Clubs, Spades]

  function SuitName(s: Suit): string
  {
    match s
    case Hearts => "hearts"
    case Diamonds => "diamonds"
    case Clubs => "clubs"
    case Spades => "spades"
  }

  function RankName(r: Rank): string
  {
    match r
    case Jack => "J"
    case Nine => "9"
    case Ace => "A"
    case Ten => "10"
    case King => "K"
    case Queen => "Q"
    case Eight => "8"
    case Seven => "7"
    case Six => "6"
  }

  /** Scoring weight of a rank: J 3, 9 2, A 1, 10 1, every other rank 0. */
  function Points(r: Rank): int
  {
    match r
    case Jack => 3
    case Nine => 2
    case Ace => 1
    case Ten => 1
    case _ => 0
  }

  /** One suit's cards, one per rank, in rank order (the inner loop). */
  function Row<C>(s: Suit, rs: seq<Rank>, mk: (Suit, Rank) -> C): seq<C>
  {
    if |rs| == 0 then [] else [mk(s, rs[0])] + Row(s, rs[1..], mk)
  }

  /** Every suit's row in suit order (the outer loop). */
  function Grid<C>(ss: seq<Suit>, rs: seq<Rank>, mk: (Suit, Rank) -> C): seq<C>
  {
    if |ss| == 0 then [] else Row(ss[0], rs, mk) + Grid(ss[1..], rs, mk)
  }

  /** Each card `mk` makes can be read back to its suit and rank, so distinct
      (suit, rank) pairs make distinct cards. */
  ghost predicate Labelled<C>(mk: (Suit, Rank) -> C, suitOf: C -> Suit, rankOf: C -> Rank)
  {
    forall s, r :: suitOf(mk(s, r)) == s && rankOf(mk(s, r)) == r
  }

  lemma {:induction false} RowLength<C>(s: Suit, rs: seq<Rank>, mk: (Suit, Rank) -> C)
    ensures |Row(s, rs, mk)| == |rs|
  {
    if |rs| > 0 {
      RowLength(s, rs[1..], mk);
    }
  }

  lemma {:induction false} GridLength<C>(ss: seq<Suit>, rs: seq<Rank>, mk: (Suit, Rank) -> C)
    ensures |Grid(ss, rs, mk)| == |ss| * |rs|
  {
    if |ss| > 0 {
      RowLength(ss[0], rs, mk);
      GridLength(ss[1..], rs, mk);
      assert |ss| * |rs| == |rs| + (|ss| - 1) * |rs|;
    }
  }

  lemma {:induction false} RowCount<C>(s: Suit, rs: seq<Rank>, mk: (Suit, Rank) -> C, suitOf: C -> Suit, rankOf: C -> Rank,
                                     s': Suit, r: Rank)
    requires Labelled(mk, suitOf, rankOf) && Distinct(rs)
    ensures multiset(Row(s, rs, mk))[mk(s', r)] == if s == s' && r in rs then 1 else 0
  {
    if |rs| > 0 {
      assert Distinct(rs[1..]);
      RowCount(s, rs[1..], mk, suitOf, rankOf, s', r);
      assert r in rs <==> r == rs[0] || r in rs[1..];
      assert rs[0] !in rs[1..];
    }
  }

  /** Over distinct suits and distinct ranks, every listed (suit, rank) card
      occurs exactly once and every other card not at all. */
  lemma {:induction false} GridCount<C>(ss: seq<Suit>, rs: seq<Rank>, mk: (Suit, Rank) -> C, suitOf: C -> Suit,
                                      rankOf: C -> Rank, s: Suit, r: Rank)
    requires Labelled(mk, suitOf, rankOf) && Distinct(ss) && Distinct(rs)
    ensures multiset(Grid(ss, rs, mk))[mk(s, r)] == if s in ss && r in rs then 1 else 0
  {
    if |ss| > 0 {
      assert Distinct(ss[1..]);
      RowCount(ss[0], rs, mk, suitOf, rankOf, s, r);
      GridCount(ss[1..], rs, mk, suitOf, rankOf, s, r);
      assert s in ss <==> s == ss[0] || s in ss[1..];
      assert ss[0] !in ss[1..];
    }
  }

  /** The same for a suit of the grid: its listed ranks occur once, others not. */
  lemma GridCountOfSuit<C>(ss: seq<Suit>, rs: seq<Rank>, mk: (Suit, Rank) -> C, suitOf: C -> Suit,
                            rankOf: C -> Rank, s: Suit, r: Rank)
    requires Labelled(mk, suitOf, rankOf) && Distinct(ss) && Distinct(rs) && s in ss
    ensures multiset(Grid(ss, rs, mk))[mk(s, r)] == if r in rs then 1 else 0
  {
    GridCount(ss, rs, mk, suitOf, rankOf, s, r);
  }

  lemma {:induction false} RowAll<C>(s: Suit, rs: seq<Rank>, mk: (Suit, Rank) -> C, p: C -> bool)
    requires forall r :: r in rs ==> p(mk(s, r))
    ensures forall c :: c in Row(s, rs, mk) ==> p(c)
  {
    if |rs| > 0 {
      RowAll(s, rs[1..], mk, p);
    }
  }

  /** A property of every listed (suit, rank) card holds of every card built. */
  lemma {:induction false} GridAll<C>(ss: seq<Suit>, rs: seq<Rank>, mk: (Suit, Rank) -> C, p: C -> bool)
    requires forall s, r :: s in ss && r in rs ==> p(mk(s, r))
    ensures forall c :: c in Grid(ss, rs, mk) ==> p(c)
  {
    if |ss| > 0 {
      RowAll(ss[0], rs, mk, p);
      GridAll(ss[1..], rs, mk, p);
    }
  }

  lemma {:induction false} RowSum<C>(s: Suit, rs: seq<Rank>, mk: (Suit, Rank) -> C, f: C -> int, g: Rank -> int)
    requires forall r :: f(mk(s, r)) == g(r)
    ensures SumOf(Row(s, rs, mk), f) == SumOf(rs, g)
  {
    if |rs| > 0 {
      RowSum(s, rs[1..], mk, f, g);
    }
  }

  /** When a card's weight depends on its rank alone, every suit contributes
      the same total. */
  lemma {:induction false} GridSum<C>(ss: seq<Suit>, rs: seq<Rank>, mk: (Suit, Rank) -> C, f: C -> int, g: Rank -> int)
    requires forall s, r :: f(mk(s, r)) == g(r)
    ensures SumOf(Grid(ss, rs, mk), f) == |ss| * SumOf(rs, g)
  {
    if |ss| > 0 {
      RowSum(ss[0], rs, mk, f, g);
      GridSum(ss[1..], rs, mk, f, g);
      SumOfConcat(Row(ss[0], rs, mk), Grid(ss[1..], rs, mk), f);
      assert |ss| * SumOf(rs, g) == SumOf(rs, g) + (|ss| - 1) * SumOf(rs, g);
    }
  }

  /** The six ranks common to every catalogue, highest trick precedence first,
      score 7 points per suit. */
  lemma SixRanksScoreSeven()
    ensures SumOf([Jack, Nine, Ace, Ten, King, Queen], Points) == 7
  {
    assert SumOf([Queen], Points) == 0 by {
      assert [Queen][1..] == [];
    }
    assert SumOf([King, Queen], Points) == 0 by {
      assert [King, Queen][1..] == [Queen];
    }
    assert SumOf([Ten, King, Queen], Points) == 1 by {
      assert [Ten, King, Queen][1..] == [King, Queen];
    }
    assert SumOf([Ace, Ten, King, Queen], Points) == 2 by {
      assert [Ace, Ten, King, Queen][1..] == [Ten, King, Queen];
    }
    assert SumOf([Nine, Ace, Ten, King, Queen], Points) == 4 by {
      assert [Nine, Ace, Ten, King, Queen][1..] == [Ace, Ten, King, Queen];
    }
    assert [Jack, Nine, Ace, Ten, King, Queen][1..] == [Nine, Ace, Ten, King, Queen];
  }

  lemma SuitsDistinct()
    ensures Distinct(Suits)
    ensures forall s: Suit :: s in Suits
  {
    forall s: Suit
      ensures s in Suits
    {
      match s
      case Hearts => assert Suits[0] == s;
      case Diamonds => assert Suits[1] == s;
      case Clubs => assert Suits[2] == s;
      case Spades => assert Suits[3] == s;
    }
  }
}

/** The game engine (engine.ts): one table's state and the operations that
    move a round along — first deal, bidding, the dealer's fold, second deal,
    play, trick resolution and the end of the round. A thrown error becomes
    an `Err` result; the random source of the deck shuffle is the `draws`
    parameter. */
module Engine {
  import opened Results
  import opened Seqs
  import opened Arith
  import opened Shuffle
  import Deck
  import Deal
  import Tricks

  type Card = Deck.Card
  type Played = Tricks.Played

  datatype Phase = Init | Deal1 | Bidding1 | Fold | Deal2 | Bidding2 | Play | End

  datatype Bid = Bid(player: int, value: int)

  /** The table. Seat i's player record is `hands[i]` and `folded[i]` (the
      record's `index` field is always i). Team points and team membership
      are indexed by team number. */
  datatype Game = Game(
    phase: Phase,
    hands: seq<seq<Card>>,
    folded: seq<Option<Card>>,
    dealer: int,
    deck: seq<Card>,
    highest: Option<Bid>,
    turn: int,
    numPlayers: int,
    trick: Option<seq<Played>>,   // None until the play phase opens a trick
    points: seq<int>,
    teams: seq<seq<int>>)

  datatype EngineError =
    | UnsupportedPlayerCount
    | DeckTooSmall
    | NotBidding
    | OpenerCannotPass
    | InvalidBidValue
    | NoSuchPlayer
    | AlreadyFolded
    | CardNotInHand
    | NoOpenTrick

  // ----- Teams -----

  /** The even seats form team 0, the odd seats team 1. */
  function Teams(numPlayers: int): seq<seq<int>>
  {
    if numPlayers == 4 then [[0, 2], [1, 3]] else [[0, 2, 4], [1, 3, 5]]
  }

  /** The first team whose member list contains `p`, or -1. */
  function TeamOf(teams: seq<seq<int>>, p: int): (t: int)
    ensures -1 <= t < |teams|
    ensures t == -1 <==> forall r :: 0 <= r < |teams| ==> p !in teams[r]
    ensures t >= 0 ==> p in teams[t] && forall r :: 0 <= r < t ==> p !in teams[r]
  {
    if |teams| == 0 then -1
    else if p in teams[0] then 0
    else
      var t := TeamOf(teams[1..], p);
      if t == -1 then -1 else t + 1
  }

  /** A seat's team is its parity; anything that is not a seat has none. */
  lemma TeamOfSeat(numPlayers: int, p: int)
    requires numPlayers == 4 || numPlayers == 6
    ensures TeamOf(Teams(numPlayers), p) == if 0 <= p < numPlayers then p % 2 else -1
  {
    var ts := Teams(numPlayers);
    if 0 <= p < numPlayers {
      assert p in ts[p % 2];
    } else {
      assert p !in ts[0] && p !in ts[1];
    }
  }

  // ----- The table invariant -----

  /** The cards of a trick were played from seats of the table. */
  predicate Seated(t: seq<Played>, numPlayers: int)
  {
    forall j :: 0 <= j < |t| ==> 0 <= t[j].player < numPlayers
  }

  /** What trick scoring relies on: a supported size, its teams and two
      point counters. */
  predicate Scorable(g: Game)
  {
    && (g.numPlayers == 4 || g.numPlayers == 6)
    && g.teams == Teams(g.numPlayers)
    && |g.points| == 2
  }

  /** What the constructor sets up and every operation keeps. */
  predicate Valid(g: Game)
  {
    && Scorable(g)
    && |g.hands| == g.numPlayers
    && |g.folded| == g.numPlayers
    && 0 <= g.dealer < g.numPlayers
    && (g.trick.Some? ==> |g.trick.value| < g.numPlayers && Seated(g.trick.value, g.numPlayers))
  }

  /** Every card of the table, in hands or in the deck. */
  function Holdings(g: Game): multiset<Card>
  {
    FlatMultiset(g.hands) + multiset(g.deck)
  }

  /** The cards of a full deck for the table size. */
  function FullDeck(numPlayers: int): multiset<Card>
    requires numPlayers == 4 || numPlayers == 6
  {
    multiset(Deck.OrderedDeck(Deck.RanksFor(numPlayers).value))
  }

  /** The state between rounds: empty hands, nothing folded, no bid, no points. */
  predicate Cleared(g: Game)
  {
    && (forall k :: 0 <= k < |g.hands| ==> g.hands[k] == [])
    && (forall k :: 0 <= k < |g.folded| ==> g.folded[k] == None)
    && g.highest == None
    && g.points == [0, 0]
  }

  // ----- Setting up -----

  /** A table between rounds: hands empty, nothing folded, no bid, no
      points, the given deck, and the dealer to speak. */
  function Fresh(numPlayers: int, dealer: int, deck: seq<Card>, trick: Option<seq<Played>>): (g: Game)
    requires numPlayers == 4 || numPlayers == 6
    requires 0 <= dealer < numPlayers
    requires trick.Some? ==> |trick.value| < numPlayers && Seated(trick.value, numPlayers)
    ensures Valid(g) && Cleared(g) && Holdings(g) == multiset(deck)
    ensures g.phase == Init && g.numPlayers == numPlayers && g.dealer == dealer && g.turn == dealer
    ensures g.deck == deck && g.trick == trick
  {
    var hands := Deal.EmptyHands(numPlayers);
    FlatMultisetEmpty(hands);
    Game(Init, hands, seq(numPlayers, _ => None), dealer, deck, None, dealer, numPlayers, trick, [0, 0],
         Teams(numPlayers))
  }

  /** The constructor: only tables of 4 or 6 are supported; the deck is a
      freshly shuffled full deck and dealer and turn start at seat 0. */
  function NewGame(numPlayers: int, draws: seq<int>): (r: Result<Game, EngineError>)
    requires numPlayers == 4 || numPlayers == 6 ==> ValidDraws(draws, Deck.DeckSize(numPlayers))
    ensures r.Err? <==> numPlayers != 4 && numPlayers != 6
    ensures r.Err? ==> r.error == UnsupportedPlayerCount
    ensures r.Ok? ==> Valid(r.value) && Cleared(r.value) && r.value.numPlayers == numPlayers
    ensures r.Ok? ==> r.value.phase == Init && r.value.dealer == 0 && r.value.turn == 0 && r.value.trick == None
    ensures r.Ok? ==> Holdings(r.value) == FullDeck(numPlayers)
  {
    if numPlayers != 4 && numPlayers != 6 then Err(UnsupportedPlayerCount)
    else
      var deck := Deck.CreateDeck(numPlayers, draws).value;
      Ok(Fresh(numPlayers, 0, deck, None))
  }

  /** How many cards one deal hands out in all. */
  function DealSize(numPlayers: int): nat
  {
    if numPlayers < 0 then 0 else numPlayers * Deal.CardsPerPlayer(numPlayers)
  }

  /** startRound: the first n * cardsPerPlayer cards of the deck go round the
      seats from seat 0 onto whatever the hands hold, bidding1 opens and the
      dealer speaks first. A deck too short for the deal is an error. */
  function StartRound(g: Game): (r: Result<Game, EngineError>)
    requires Valid(g)
    ensures r.Err? <==> |g.deck| < DealSize(g.numPlayers)
    ensures r.Err? ==> r.error == DeckTooSmall
    ensures r.Ok? ==> Valid(r.value) && r.value.phase == Bidding1 && r.value.turn == g.dealer
    ensures r.Ok? ==> |r.value.deck| == |g.deck| - DealSize(g.numPlayers)
    ensures r.Ok? ==> r.value.deck == g.deck[DealSize(g.numPlayers)..]
    ensures r.Ok? ==> r.value.(hands := g.hands, deck := g.deck, phase := g.phase, turn := g.turn) == g
  {
    var n := g.numPlayers;
    var total := DealSize(n);
    if |g.deck| < total then Err(DeckTooSmall)
    else Ok(g.(hands := Deal.DealInto(g.hands, g.deck, n, total), deck := g.deck[total..],
               phase := Bidding1, turn := g.dealer))
  }

  /** The first deal only moves cards from the deck into the hands. */
  lemma StartRoundConserves(g: Game)
    requires Valid(g) && StartRound(g).Ok?
    ensures Holdings(StartRound(g).value) == Holdings(g)
  {
    var total := DealSize(g.numPlayers);
    Deal.DealIntoConserves(g.hands, g.deck, g.numPlayers, total);
    assert g.deck == g.deck[..total] + g.deck[total..];
  }

  /** Each seat k gains exactly cardsPerPlayer cards, deck[k], deck[k + n], ...
      after what it held. */
  lemma StartRoundLayout(g: Game, k: int)
    requires Valid(g) && StartRound(g).Ok? && 0 <= k < g.numPlayers
    ensures var h := StartRound(g).value.hands[k];
            && |h| == |g.hands[k]| + Deal.CardsPerPlayer(g.numPlayers)
            && h[..|g.hands[k]|] == g.hands[k]
            && forall t :: 0 <= t < Deal.CardsPerPlayer(g.numPlayers) ==>
                 k + t * g.numPlayers < |g.deck| && h[|g.hands[k]| + t] == g.deck[k + t * g.numPlayers]
  {
    var n: nat := g.numPlayers;
    var c := Deal.CardsPerPlayer(n);
    var d := Deal.Dealt(g.deck, n, n * c, k);
    assert StartRound(g).value.hands[k] == g.hands[k] + d;
    Deal.FullDealSeat(g.deck, n, c, k);
  }

  // ----- Bidding -----

  function MinBid(phase: Phase): int
  {
    if phase == Bidding1 then 14 else 21
  }

  function MaxBid(phase: Phase): int
  {
    if phase == Bidding1 then 20 else 28
  }

  /** The standing bid is at least what it was. */
  predicate NotLower(before: Option<Bid>, after: Option<Bid>)
  {
    before.Some? ==> after.Some? && after.value.value >= before.value.value
  }

  /** makeBid: `value` None is a pass. Only the bidding phases accept a call,
      the dealer may not pass in bidding1 (at any point of it), a bid must lie
      in [14, 20] in bidding1 and [21, 28] in bidding2, and it replaces the
      standing bid only when there is none or it is strictly higher. The turn
      passes to the caller's left. Neither the caller's seat nor its turn is
      checked. */
  function MakeBid(g: Game, player: int, value: Option<int>): (r: Result<Game, EngineError>)
    requires Valid(g)
    ensures r == Err(NotBidding) <==> g.phase != Bidding1 && g.phase != Bidding2
    ensures r == Err(OpenerCannotPass) <==> g.phase == Bidding1 && player == g.dealer && value.None?
    ensures r == Err(InvalidBidValue) <==>
              (g.phase == Bidding1 || g.phase == Bidding2) && value.Some?
              && (value.value < MinBid(g.phase) || value.value > MaxBid(g.phase))
    ensures r.Ok? <==> && (g.phase == Bidding1 || g.phase == Bidding2)
                       && !(g.phase == Bidding1 && player == g.dealer && value.None?)
                       && !(value.Some? && (value.value < MinBid(g.phase) || value.value > MaxBid(g.phase)))
    ensures r.Ok? ==> Valid(r.value) && r.value.turn == JsRem(player + 1, g.numPlayers)
    ensures r.Ok? ==> r.value.(highest := g.highest, turn := g.turn) == g
    ensures r.Ok? ==> NotLower(g.highest, r.value.highest)
    ensures r.Ok? ==> (r.value.highest != g.highest <==>
                         value.Some? && (g.highest.None? || value.value > g.highest.value.value))
    ensures r.Ok? && r.value.highest != g.highest ==>
              r.value.highest == Some(Bid(player, value.value))
              && MinBid(g.phase) <= value.value <= MaxBid(g.phase)
  {
    if g.phase != Bidding1 && g.phase != Bidding2 then Err(NotBidding)
    else if g.phase == Bidding1 && player == g.dealer && value.None? then Err(OpenerCannotPass)
    else if value.Some? && (value.value < MinBid(g.phase) || value.value > MaxBid(g.phase)) then Err(InvalidBidValue)
    else
      var highest :=
        if value.Some? && (g.highest.None? || value.value > g.highest.value.value)
        then Some(Bid(player, value.value)) else g.highest;
      Ok(g.(highest := highest, turn := JsRem(player + 1, g.numPlayers)))
  }

  /** One call of makeBid. */
  datatype Call = Call(player: int, value: Option<int>)

  /** A sequence of calls, stopping at the first error. */
  function Bids(g: Game, calls: seq<Call>): (r: Result<Game, EngineError>)
    requires Valid(g)
    ensures r.Ok? ==> Valid(r.value)
  {
    if |calls| == 0 then Ok(g)
    else match Bids(g, calls[..|calls| - 1])
      case Ok(h) => MakeBid(h, calls[|calls| - 1].player, calls[|calls| - 1].value)
      case Err(e) => Err(e)
  }

  /** However many calls go through, the standing bid never drops, and
      nothing but the standing bid and the turn changes. */
  lemma {:induction false} BidsNeverLower(g: Game, calls: seq<Call>)
    requires Valid(g) && Bids(g, calls).Ok?
    ensures NotLower(g.highest, Bids(g, calls).value.highest)
    ensures Bids(g, calls).value.(highest := g.highest, turn := g.turn) == g
  {
    if |calls| > 0 {
      BidsNeverLower(g, calls[..|calls| - 1]);
    }
  }

  /** A standing bid made during bidding lies in the range of its phase. */
  lemma {:induction false} BidsInRange(g: Game, calls: seq<Call>)
    requires Valid(g) && Bids(g, calls).Ok?
    requires g.highest.Some? ==> MinBid(g.phase) <= g.highest.value.value <= MaxBid(g.phase)
    ensures var h := Bids(g, calls).value.highest;
            h.Some? ==> MinBid(g.phase) <= h.value.value <= MaxBid(g.phase)
  {
    if |calls| > 0 {
      BidsInRange(g, calls[..|calls| - 1]);
      BidsNeverLower(g, calls[..|calls| - 1]);
    }
  }

  // ----- The fold and the second deal -----

  /** `hand` with every copy of `card` filtered out. */
  function Without(hand: seq<Card>, card: Card): (r: seq<Card>)
    ensures multiset(r) == multiset(hand)[card := 0]
  {
    if |hand| == 0 then []
    else
      assert hand == [hand[0]] + hand[1..];
      (if hand[0] == card then [] else [hand[0]]) + Without(hand[1..], card)
  }

  /** dealSecondSet: up to n * cardsPerPlayer further cards go round the
      seats from seat 0 (a short deck is dealt out as far as it goes), the deck
      keeps what lies beyond, bidding2 opens and the dealer speaks first. */
  function DealSecond(g: Game): (r: Game)
    requires Valid(g)
    ensures Valid(r) && r.phase == Bidding2 && r.turn == g.dealer
    ensures |r.deck| == |g.deck| - Deal.Min(DealSize(g.numPlayers), |g.deck|)
    ensures r.deck == g.deck[Deal.Min(DealSize(g.numPlayers), |g.deck|)..]
    ensures r.(hands := g.hands, deck := g.deck, phase := g.phase, turn := g.turn) == g
  {
    var n := g.numPlayers;
    g.(hands := Deal.DealSecondSet(g.deck, g.hands, n),
       deck := g.deck[Deal.SecondDealCount(g.deck, n)..],
       phase := Bidding2, turn := g.dealer)
  }

  /** The second deal only moves cards from the deck into the hands. */
  lemma DealSecondConserves(g: Game)
    requires Valid(g)
    ensures Holdings(DealSecond(g)) == Holdings(g)
  {
    var count := Deal.SecondDealCount(g.deck, g.numPlayers);
    Deal.DealSecondSetConserves(g.deck, g.hands, g.numPlayers);
    assert g.deck == g.deck[..count] + g.deck[count..];
  }

  /** foldCard: a seat that does not exist or has already folded is refused;
      otherwise the card is recorded as folded, every copy of it leaves the
      seat's hand (whether or not the hand held it) and the second deal
      follows. Neither the phase nor the seat (dealer or not) is checked. */
  function FoldCard(g: Game, player: int, card: Card): (r: Result<Game, EngineError>)
    requires Valid(g)
    ensures r == Err(NoSuchPlayer) <==> !(0 <= player < g.numPlayers)
    ensures r == Err(AlreadyFolded) <==> 0 <= player < g.numPlayers && g.folded[player].Some?
    ensures r.Ok? <==> 0 <= player < g.numPlayers && g.folded[player].None?
    ensures r.Ok? ==> Valid(r.value) && r.value.phase == Bidding2 && r.value.turn == g.dealer
    ensures r.Ok? ==> r.value.folded == g.folded[player := Some(card)]
    ensures r.Ok? ==> r.value.deck == g.deck[Deal.Min(DealSize(g.numPlayers), |g.deck|)..]
    ensures r.Ok? ==> r.value.(hands := g.hands, deck := g.deck, folded := g.folded, phase := g.phase, turn := g.turn) == g
  {
    if !(0 <= player < g.numPlayers) then Err(NoSuchPlayer)
    else if g.folded[player].Some? then Err(AlreadyFolded)
    else Ok(DealSecond(Folded(g, player, card)))
  }

  /** The table between the fold and the second deal. */
  function Folded(g: Game, player: int, card: Card): (r: Game)
    requires Valid(g) && 0 <= player < g.numPlayers
    ensures Valid(r)
  {
    g.(folded := g.folded[player := Some(card)], hands := g.hands[player := Without(g.hands[player], card)])
  }

  /** The fold takes every copy of the card the seat held out of play; the
      second deal then moves cards from the deck to the hands. */
  lemma FoldCardConserves(g: Game, player: int, card: Card)
    requires Valid(g) && FoldCard(g, player, card).Ok?
    ensures Holdings(FoldCard(g, player, card).value) + multiset{}[card := multiset(g.hands[player])[card]]
         == Holdings(g)
  {
    var w := Without(g.hands[player], card);
    var gone: multiset<Card> := multiset{}[card := multiset(g.hands[player])[card]];
    assert multiset(g.hands[player]) == multiset(w) + gone;
    FlatMultisetTake(g.hands, player, w, gone);
    DealSecondConserves(Folded(g, player, card));
  }

  /** After the fold the card is back in the seat's hand only if the second
      deal brought it from the deck. */
  lemma FoldedCardLeavesHand(g: Game, player: int, card: Card)
    requires Valid(g) && FoldCard(g, player, card).Ok?
    ensures card in FoldCard(g, player, card).value.hands[player] ==> card in g.deck
  {
    var w := Without(g.hands[player], card);
    var g1 := Folded(g, player, card);
    var h := FoldCard(g, player, card).value.hands[player];
    assert card !in multiset(w);
    if card in h {
      var t :| 0 <= t < |h| && h[t] == card;
      assert h[..|w|] == w;
      if t >= |w| {
        Deal.DealSecondSetLayout(g.deck, g1.hands, g.numPlayers, player, t);
      }
    }
  }

  /** What seat k still holds of its first-deal hand once `player` has
      folded `card`. */
  function Kept(g: Game, player: int, card: Card, k: int): seq<Card>
    requires Valid(g) && 0 <= k < g.numPlayers
  {
    if k == player then Without(g.hands[k], card) else g.hands[k]
  }

  /** After the fold each seat k keeps its hand (the folding seat without
      the folded card) and gains its round-robin share of the second deal:
      count / n cards, plus one for the first count % n seats. */
  lemma FoldCardShare(g: Game, player: int, card: Card, k: int)
    requires Valid(g) && FoldCard(g, player, card).Ok? && 0 <= k < g.numPlayers
    ensures var h := FoldCard(g, player, card).value.hands[k];
            var kept := Kept(g, player, card, k);
            |kept| <= |h| && h[..|kept|] == kept
    ensures var h := FoldCard(g, player, card).value.hands[k];
            var kept := Kept(g, player, card, k);
            var count := Deal.Min(DealSize(g.numPlayers), |g.deck|);
            |h| - |kept| == count / g.numPlayers + (if k < count % g.numPlayers then 1 else 0)
  {
    var n := g.numPlayers;
    var before := Folded(g, player, card).hands;
    assert before[k] == Kept(g, player, card, k);
    assert FoldCard(g, player, card).value.hands == Deal.DealSecondSet(g.deck, before, n);
    assert DealSize(n) == n * Deal.CardsPerPlayer(n);
    Deal.DealSecondSetShares(g.deck, before, n, k, k);
  }

  /** The t-th card of seat k after the fold, past the cards it kept, is the
      deck card k + (t - kept) * n. */
  lemma FoldCardLayout(g: Game, player: int, card: Card, k: int, t: int)
    requires Valid(g) && FoldCard(g, player, card).Ok? && 0 <= k < g.numPlayers
    requires |Kept(g, player, card, k)| <= t
    requires t < |FoldCard(g, player, card).value.hands[k]|
    ensures var kept := Kept(g, player, card, k);
            && 0 <= k + (t - |kept|) * g.numPlayers < |g.deck|
            && FoldCard(g, player, card).value.hands[k][t] == g.deck[k + (t - |kept|) * g.numPlayers]
  {
    var n := g.numPlayers;
    var before := Folded(g, player, card).hands;
    assert before[k] == Kept(g, player, card, k);
    assert FoldCard(g, player, card).value.hands == Deal.DealSecondSet(g.deck, before, n);
    Deal.DealSecondSetLayout(g.deck, before, n, k, t);
  }

  // ----- Play -----

  /** startPlayPhase: the play phase opens with an empty trick. */
  function StartPlayPhase(g: Game): (r: Game)
    requires Valid(g)
    ensures Valid(r) && r.phase == Play && r.trick == Some([])
    ensures r.(phase := g.phase, trick := g.trick) == g
  {
    g.(phase := Play, trick := Some([]))
  }

  /** The winning seat's team gets the points of the trick. */
  function Award(g: Game, t: seq<Played>): (r: Game)
    requires Scorable(g) && |t| > 0 && Seated(t, g.numPlayers)
    ensures Scorable(r) && r.(points := g.points) == g
  {
    var w := Tricks.Winner(t);
    var team := TeamOf(g.teams, t[w].player);
    TeamOfSeat(g.numPlayers, t[w].player);
    g.(points := g.points[team := g.points[team] + Tricks.TrickPoints(t)])
  }

  /** The winner of the trick is the card with the defining property, and
      its team, the winning seat's parity, gains exactly the trick's points
      while the other team's count stays. */
  lemma AwardGoesToWinner(g: Game, t: seq<Played>)
    requires Scorable(g) && |t| > 0 && Seated(t, g.numPlayers)
    ensures var w := Tricks.Winner(t);
            var team := t[w].player % 2;
            && Tricks.IsWinner(t, Tricks.TargetSuit(t), w)
            && Award(g, t).points[team] == g.points[team] + Tricks.TrickPoints(t)
            && Award(g, t).points[1 - team] == g.points[1 - team]
  {
    Tricks.WinnerIsWinner(t);
    TeamOfSeat(g.numPlayers, t[Tricks.Winner(t)].player);
  }

  /** resolveTrick: scores the open trick without closing it; with no trick
      or an empty one there is no lead card and the call fails. */
  function ResolveTrick(g: Game): (r: Result<Game, EngineError>)
    requires Valid(g)
    ensures r.Err? <==> g.trick.None? || g.trick.value == []
    ensures r.Err? ==> r.error == NoOpenTrick
    ensures r.Ok? ==> Valid(r.value) && r.value.(points := g.points) == g
    ensures r.Ok? ==> Total(r.value.points) == Total(g.points) + Tricks.TrickPoints(g.trick.value)
    ensures r.Ok? ==>
              var t := g.trick.value;
              var w := Tricks.Winner(t);
              var team := t[w].player % 2;
              && Tricks.IsWinner(t, Tricks.TargetSuit(t), w)
              && r.value.points[team] == g.points[team] + Tricks.TrickPoints(t)
              && r.value.points[1 - team] == g.points[1 - team]
  {
    if g.trick.None? || g.trick.value == [] then Err(NoOpenTrick)
    else
      AwardGoesToWinner(g, g.trick.value);
      Ok(Award(g, g.trick.value))
  }

  /** The two teams' points together. */
  function Total(points: seq<int>): int
    requires |points| == 2
  {
    points[0] + points[1]
  }

  /** Points scored so far plus those lying in the open trick. */
  function Score(g: Game): int
    requires |g.points| == 2
  {
    Total(g.points) + (if g.trick.Some? then Tricks.TrickPoints(g.trick.value) else 0)
  }

  /** The entry a play adds to the trick: flagged as folded exactly when it is
      the card the seat folded. */
  function Entry(g: Game, player: int, card: Card, isThurp: bool): Played
    requires 0 <= player < |g.folded|
  {
    Tricks.Played(card, player, isThurp, g.folded[player] == Some(card))
  }

  /** playCard: the seat must exist and hold the card; its first copy leaves
      the hand and joins the open trick. When the trick then has a card from
      every seat it is scored and a new empty trick opens. The turn passes to
      the player's left. Neither the phase nor the turn is checked. */
  function PlayCard(g: Game, player: int, card: Card, isThurp: bool): (r: Result<Game, EngineError>)
    requires Valid(g)
    ensures r == Err(NoSuchPlayer) <==> !(0 <= player < g.numPlayers)
    ensures r == Err(CardNotInHand) <==> 0 <= player < g.numPlayers && card !in g.hands[player]
    ensures r == Err(NoOpenTrick) <==> 0 <= player < g.numPlayers && card in g.hands[player] && g.trick.None?
    ensures r.Ok? <==> 0 <= player < g.numPlayers && card in g.hands[player] && g.trick.Some?
    ensures r.Ok? ==> r.value.(hands := g.hands, trick := g.trick, points := g.points, turn := g.turn) == g
    ensures r.Ok? ==> Valid(r.value) && r.value.turn == (player + 1) % g.numPlayers
    ensures r.Ok? ==> var i := IndexOf(g.hands[player], card);
              && 0 <= i && g.hands[player][i] == card && card !in g.hands[player][..i]
              && r.value.hands[player] == g.hands[player][..i] + g.hands[player][i + 1..]
    ensures r.Ok? ==> multiset(r.value.hands[player]) + multiset{card} == multiset(g.hands[player])
    ensures r.Ok? ==> forall k :: 0 <= k < |g.hands| && k != player ==> r.value.hands[k] == g.hands[k]
  {
    if !(0 <= player < g.numPlayers) then Err(NoSuchPlayer)
    else
      var hand := g.hands[player];
      var i := IndexOf(hand, card);
      if i == -1 then Err(CardNotInHand)
      else if g.trick.None? then Err(NoOpenTrick)
      else
        assert hand == hand[..i] + [card] + hand[i + 1..];
        var g1 := g.(hands := g.hands[player := hand[..i] + hand[i + 1..]],
                     turn := (player + 1) % g.numPlayers);
        var t := g.trick.value + [Entry(g, player, card, isThurp)];
        if |t| == g.numPlayers then Ok(Award(g1, t).(trick := Some([])))
        else Ok(g1.(trick := Some(t)))
  }

  /** A play moves the card's points from the hand onto the table: the score
      (team points plus the open trick) grows by exactly the card's points,
      whether or not the play completed the trick. */
  lemma PlayCardScores(g: Game, player: int, card: Card, isThurp: bool)
    requires Valid(g) && PlayCard(g, player, card, isThurp).Ok?
    ensures Score(PlayCard(g, player, card, isThurp).value) == Score(g) + card.points
  {
    var e := Entry(g, player, card, isThurp);
    Seqs.SumOfConcat(g.trick.value, [e], Tricks.CardPoints);
    assert Tricks.TrickPoints([e]) == card.points;
    var t := g.trick.value + [e];
    if |t| == g.numPlayers {
      var g1 := PlayCard(g, player, card, isThurp).value.(trick := Some(t));
      AwardGoesToWinner(g1, t);
    }
  }

  /** A play that does not complete the trick appends exactly its entry; one
      that completes it leaves an empty trick behind. */
  lemma PlayCardExtendsTrick(g: Game, player: int, card: Card, isThurp: bool)
    requires Valid(g) && PlayCard(g, player, card, isThurp).Ok?
    ensures var r := PlayCard(g, player, card, isThurp).value;
            var t := g.trick.value + [Entry(g, player, card, isThurp)];
            && (|t| < g.numPlayers ==> r.trick == Some(t) && r.points == g.points)
            && (|t| == g.numPlayers ==> r.trick == Some([]))
    ensures var r := PlayCard(g, player, card, isThurp).value;
            var t := g.trick.value + [Entry(g, player, card, isThurp)];
            var w := Tricks.Winner(t);
            var team := t[w].player % 2;
            |t| == g.numPlayers ==>
              && Tricks.IsWinner(t, Tricks.TargetSuit(t), w)
              && r.points[team] == g.points[team] + Tricks.TrickPoints(t)
              && r.points[1 - team] == g.points[1 - team]
  {
    var t := g.trick.value + [Entry(g, player, card, isThurp)];
    if |t| == g.numPlayers {
      var hand := g.hands[player];
      var i := IndexOf(hand, card);
      var g1 := g.(hands := g.hands[player := hand[..i] + hand[i + 1..]],
                   turn := (player + 1) % g.numPlayers);
      assert PlayCard(g, player, card, isThurp).value == Award(g1, t).(trick := Some([]));
      AwardGoesToWinner(g1, t);
    }
  }

  /** A card is flagged as folded only while the seat both folded it and still
      holds it; since the fold filters the card out of the hand (see
      FoldedCardLeavesHand), the flag is never set for a card that did not
      come back from the deck. */
  lemma FoldFlagNeedsHeldCard(g: Game, player: int, card: Card, isThurp: bool)
    requires Valid(g) && 0 <= player < g.numPlayers && g.folded[player] == Some(card)
    ensures PlayCard(g, player, card, isThurp).Ok? ==> card in g.hands[player] && Entry(g, player, card, isThurp).isFolded
    ensures card !in g.hands[player] ==> PlayCard(g, player, card, isThurp) == Err(CardNotInHand)
  {
  }

  // ----- End of the round -----

  predicate HandsEmpty(g: Game)
  {
    forall k :: 0 <= k < |g.hands| ==> g.hands[k] == []
  }

  /** prepareNextRound: the deal moves one seat to the left, a freshly
      shuffled full deck replaces the old one, hands, folds, the standing bid
      and the points are cleared and the new dealer has the turn. The open
      trick is left as it was. */
  function PrepareNextRound(g: Game, draws: seq<int>): (r: Game)
    requires Valid(g) && ValidDraws(draws, Deck.DeckSize(g.numPlayers))
    ensures Valid(r) && Cleared(r) && r.phase == Init
    ensures r.dealer == (g.dealer + 1) % g.numPlayers && r.turn == r.dealer
    ensures r.numPlayers == g.numPlayers && r.teams == g.teams && r.trick == g.trick
  {
    var n := g.numPlayers;
    var deck := Deck.CreateDeck(n, draws).value;
    Fresh(n, (g.dealer + 1) % n, deck, g.trick)
  }

  /** The next round starts from a full deck: every card of the table's deck,
      each as often as the deck holds it, and nothing in the hands. */
  lemma NextRoundHoldsFullDeck(g: Game, draws: seq<int>)
    requires Valid(g) && ValidDraws(draws, Deck.DeckSize(g.numPlayers))
    ensures Holdings(PrepareNextRound(g, draws)) == FullDeck(g.numPlayers)
  {
  }

  /** Whether the bidding team made its bid. */
  datatype Verdict = Verdict(team: int, made: bool)

  datatype RoundCheck = RoundCheck(game: Game, verdict: Option<Verdict>)

  /** The verdict on a standing bid: the bidder's team has made it exactly
      when its points reach the bid's value; a bidder outside the teams has no
      points and fails. */
  function Judge(g: Game, b: Bid): (v: Verdict)
    requires Scorable(g)
    ensures v.team == (if 0 <= b.player < g.numPlayers then b.player % 2 else -1)
    ensures v.made <==> 0 <= b.player < g.numPlayers && g.points[b.player % 2] >= b.value
  {
    var team := TeamOf(g.teams, b.player);
    TeamOfSeat(g.numPlayers, b.player);
    Verdict(team, 0 <= team < 2 && g.points[team] >= b.value)
  }

  /** checkRoundEnd: nothing happens until every hand is empty and a bid
      stands; then the bid is judged and the next round is prepared. */
  function CheckRoundEnd(g: Game, draws: seq<int>): (r: RoundCheck)
    requires Valid(g) && ValidDraws(draws, Deck.DeckSize(g.numPlayers))
    ensures r.verdict.Some? <==> HandsEmpty(g) && g.highest.Some?
    ensures r.verdict.None? ==> r.game == g
    ensures r.verdict.Some? ==>
              var b := g.highest.value;
              r.verdict.value.team == (if 0 <= b.player < g.numPlayers then b.player % 2 else -1)
    ensures r.verdict.Some? ==>
              var b := g.highest.value;
              r.verdict.value.made <==> 0 <= b.player < g.numPlayers && g.points[b.player % 2] >= b.value
    ensures r.verdict.Some? ==>
              Valid(r.game) && Cleared(r.game) && r.game.phase == Init
              && r.game.dealer == (g.dealer + 1) % g.numPlayers
    ensures r.verdict.Some? ==>
              && r.game.turn == r.game.dealer && r.game.trick == g.trick
              && r.game.numPlayers == g.numPlayers && r.game.teams == g.teams
              && r.game == PrepareNextRound(g, draws)
  {
    if !HandsEmpty(g) || g.highest.None? then RoundCheck(g, None)
    else
      var v := Judge(g, g.highest.value);
      var next := PrepareNextRound(g, draws);
      RoundCheck(next, Some(v))
  }

  /** The dealer after `rounds` round ends, each moving the deal one seat to
      the left as PrepareNextRound does. */
  function DealerAfter(dealer: int, numPlayers: int, rounds: nat): int
    requires numPlayers > 0
  {
    if rounds == 0 then dealer else (DealerAfter(dealer, numPlayers, rounds - 1) + 1) % numPlayers
  }

  /** The deal travels round the table: after k round ends the dealer is k
      seats to the left of the first. */
  lemma {:induction false} DealerRotates(dealer: int, numPlayers: int, rounds: nat)
    requires 0 <= dealer < numPlayers
    ensures DealerAfter(dealer, numPlayers, rounds) == (dealer + rounds) % numPlayers
  {
    if rounds > 0 {
      DealerRotates(dealer, numPlayers, rounds - 1);
      ModSucc(dealer + rounds - 1, numPlayers);
    }
  }

  /** No seat deals twice within any n consecutive rounds, so each deals
      exactly once. */
  lemma DealerNeverRepeats(dealer: int, numPlayers: int, r1: nat, r2: nat)
    requires 0 <= dealer < numPlayers && r1 < r2 < r1 + numPlayers
    ensures DealerAfter(dealer, numPlayers, r1) != DealerAfter(dealer, numPlayers, r2)
  {
    DealerRotates(dealer, numPlayers, r1);
    DealerRotates(dealer, numPlayers, r2);
    if (dealer + r1) % numPlayers == (dealer + r2) % numPlayers {
      ModInjective(dealer + r1, dealer + r2, numPlayers);
    }
  }
}

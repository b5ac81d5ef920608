/** Trick resolution (resolveTrick in engine.ts): which card takes the trick
    and how many points it carries. */
module Tricks {
  import opened Results
  import opened Seqs
  import opened Faces
  import Deck

  type Card = Deck.Card

  /** A card on the table, with the seat that played it and whether it was
      shown as trump ("thurp") or is the seat's folded card. */
  datatype Played = Played(card: Card, player: int, isThurp: bool, isFolded: bool)

  predicate Flagged(e: Played)
  {
    e.isThurp || e.isFolded
  }

  /** Index of the first flagged card, or -1 when none is flagged. */
  function FirstFlagged(trick: seq<Played>): (i: int)
    ensures -1 <= i < |trick|
    ensures i == -1 <==> forall j :: 0 <= j < |trick| ==> !Flagged(trick[j])
    ensures 0 <= i ==> Flagged(trick[i]) && forall j :: 0 <= j < i ==> !Flagged(trick[j])
  {
    if |trick| == 0 then -1
    else if Flagged(trick[0]) then 0
    else
      var i := FirstFlagged(trick[1..]);
      if i == -1 then -1 else i + 1
  }

  /** The suit of the first flagged card, if any card is flagged. */
  function PrioritySuit(trick: seq<Played>): Option<Suit>
  {
    var i := FirstFlagged(trick);
    if i == -1 then None else Some(trick[i].card.suit)
  }

  /** The suit that can take the trick: the priority suit when there is one,
      otherwise the suit led. */
  function TargetSuit(trick: seq<Played>): Suit
    requires |trick| > 0
  {
    match PrioritySuit(trick)
    case Some(s) => s
    case None => trick[0].card.suit
  }

  function CardPoints(e: Played): int
  {
    e.card.points
  }

  /** The lead card and every card of the target suit may take the trick. */
  predicate Contender(trick: seq<Played>, suit: Suit, j: int)
    requires 0 <= j < |trick|
  {
    j == 0 || trick[j].card.suit == suit
  }

  /** The winner by its defining property: a contender with the most points
      among contenders, and the earliest such. */
  predicate IsWinner(trick: seq<Played>, suit: Suit, w: int)
  {
    && 0 <= w < |trick|
    && Contender(trick, suit, w)
    && (forall j :: 0 <= j < |trick| && Contender(trick, suit, j) ==> CardPoints(trick[j]) <= CardPoints(trick[w]))
    && (forall j :: 0 <= j < w && Contender(trick, suit, j) ==> CardPoints(trick[j]) < CardPoints(trick[w]))
  }

  /** The scan the code performs: starting from the lead card, a card of the
      target suit replaces the current winner only with strictly more points. */
  function Scan(trick: seq<Played>, suit: Suit, i: nat, w: nat): (r: nat)
    requires i <= |trick| && w < |trick|
    ensures r < |trick|
    decreases |trick| - i
  {
    if i == |trick| then w
    else
      var beats := trick[i].card.suit == suit && CardPoints(trick[i]) > CardPoints(trick[w]);
      Scan(trick, suit, i + 1, if beats then i else w)
  }

  /** Index of the winning card of a non-empty trick. */
  function Winner(trick: seq<Played>): (w: nat)
    requires |trick| > 0
    ensures w < |trick|
  {
    Scan(trick, TargetSuit(trick), 0, 0)
  }

  /** What the scan keeps after looking at the first i cards. */
  predicate ScanInvariant(trick: seq<Played>, suit: Suit, i: nat, w: nat)
  {
    && w < |trick| && i <= |trick| && (w < i || w == 0)
    && Contender(trick, suit, w)
    && (forall j :: 0 <= j < i && Contender(trick, suit, j) ==> CardPoints(trick[j]) <= CardPoints(trick[w]))
    && (forall j :: 0 <= j < w && Contender(trick, suit, j) ==> CardPoints(trick[j]) < CardPoints(trick[w]))
  }

  lemma {:induction false} ScanFindsWinner(trick: seq<Played>, suit: Suit, i: nat, w: nat)
    requires ScanInvariant(trick, suit, i, w)
    ensures IsWinner(trick, suit, Scan(trick, suit, i, w))
    decreases |trick| - i
  {
    if i < |trick| {
      var beats := trick[i].card.suit == suit && CardPoints(trick[i]) > CardPoints(trick[w]);
      var w' := if beats then i else w;
      assert ScanInvariant(trick, suit, i + 1, w');
      ScanFindsWinner(trick, suit, i + 1, w');
    }
  }

  /** The scan picks the card with the defining property. */
  lemma WinnerIsWinner(trick: seq<Played>)
    requires |trick| > 0
    ensures IsWinner(trick, TargetSuit(trick), Winner(trick))
  {
    ScanFindsWinner(trick, TargetSuit(trick), 0, 0);
  }

  /** At most one card has the defining property. */
  lemma WinnerUnique(trick: seq<Played>, suit: Suit, w1: int, w2: int)
    requires IsWinner(trick, suit, w1) && IsWinner(trick, suit, w2)
    ensures w1 == w2
  {
  }

  /** The lead card keeps the trick exactly when no card of the target suit
      carries strictly more points; otherwise the winner is a target-suit card
      with the most points. Points decide, not rank: a 0-point card never
      takes the trick from the lead. */
  lemma LeadKeepsUnlessOutscored(trick: seq<Played>)
    requires |trick| > 0
    ensures Winner(trick) == 0 <==>
              forall j :: 0 <= j < |trick| && trick[j].card.suit == TargetSuit(trick) ==>
                CardPoints(trick[j]) <= CardPoints(trick[0])
    ensures Winner(trick) != 0 ==> trick[Winner(trick)].card.suit == TargetSuit(trick)
                                   && CardPoints(trick[Winner(trick)]) > CardPoints(trick[0])
  {
    WinnerIsWinner(trick);
  }

  /** The points the trick carries: the sum over all its cards. */
  function TrickPoints(trick: seq<Played>): int
  {
    SumOf(trick, CardPoints)
  }

  /** The count does not depend on the order the cards were played in. */
  lemma TrickPointsAnyOrder(a: seq<Played>, b: seq<Played>)
    requires multiset(a) == multiset(b)
    ensures TrickPoints(a) == TrickPoints(b)
  {
    SumOfPermutation(a, b, CardPoints);
  }

  /** With all card points non-negative, a trick carries at least the points
      of each of its cards. */
  lemma {:induction false} TrickPointsBound(trick: seq<Played>, j: int)
    requires forall k :: 0 <= k < |trick| ==> CardPoints(trick[k]) >= 0
    requires 0 <= j < |trick|
    ensures TrickPoints(trick) >= CardPoints(trick[j])
  {
    if j > 0 {
      TrickPointsBound(trick[1..], j - 1);
      assert trick[1..][j - 1] == trick[j];
    }
    NonNegativeSum(trick[1..]);
  }

  lemma {:induction false} NonNegativeSum(trick: seq<Played>)
    requires forall k :: 0 <= k < |trick| ==> CardPoints(trick[k]) >= 0
    ensures TrickPoints(trick) >= 0
  {
    if |trick| > 0 {
      NonNegativeSum(trick[1..]);
      assert forall k :: 0 <= k < |trick| - 1 ==> trick[1..][k] == trick[k + 1];
    }
  }
}

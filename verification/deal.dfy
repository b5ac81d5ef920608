/** Round-robin dealing: card i of the dealt stretch goes to seat i mod n. */
module Deal {
  import opened Results
  import opened Seqs
  import opened Arith
  import Deck

  type Card = Deck.Card

  /** Cards each seat receives per deal: 4 at a four-player table, 3 otherwise. */
  function CardsPerPlayer(numPlayers: int): nat
  {
    if numPlayers == 4 then 4 else 3
  }

  /** What seat `k` receives when the first `count` cards of `deck` go round
      the `n` seats: the cards at positions i < count with i mod n = k, in
      deck order. */
  function Dealt<T>(deck: seq<T>, n: nat, count: nat, k: nat): seq<T>
    requires 0 < n && count <= |deck|
  {
    if count == 0 then []
    else Dealt(deck, n, count - 1, k) + (if (count - 1) % n == k then [deck[count - 1]] else [])
  }

  /** Seat `k` receives `count / n` cards, one more when it is among the first
      `count mod n` seats, and its t-th card is deck[k + t n]. */
  lemma {:induction false} DealtLayout<T>(deck: seq<T>, n: nat, count: nat, k: nat)
    requires 0 < n && count <= |deck| && k < n
    ensures |Dealt(deck, n, count, k)| == count / n + (if k < count % n then 1 else 0)
    ensures forall t :: 0 <= t < |Dealt(deck, n, count, k)| ==>
              0 <= k + t * n < count && Dealt(deck, n, count, k)[t] == deck[k + t * n]
  {
    if count > 0 {
      var c := count - 1;
      DealtLayout(deck, n, c, k);
      DivModNext(c, n);
      DivModBasics(c, n);
      var before := Dealt(deck, n, c, k);
      var after := Dealt(deck, n, count, k);
      if c % n == k {
        assert after == before + [deck[c]];
        assert |before| == c / n;
        assert k + |before| * n == c;
      } else {
        assert after == before;
      }
    }
  }

  /** A short deal is balanced: seats receive counts that differ by at most
      one, and a lower seat never receives fewer than a higher one. */
  lemma DealtBalanced<T>(deck: seq<T>, n: nat, count: nat, k1: nat, k2: nat)
    requires 0 < n && count <= |deck| && k1 <= k2 < n
    ensures |Dealt(deck, n, count, k2)| <= |Dealt(deck, n, count, k1)| <= |Dealt(deck, n, count, k2)| + 1
  {
    DealtLayout(deck, n, count, k1);
    DealtLayout(deck, n, count, k2);
  }

  /** The first `n` hands after `deck[..count]` has been dealt onto them;
      hands beyond the n-th are untouched. */
  function DealInto<T>(hands: seq<seq<T>>, deck: seq<T>, n: nat, count: nat): (hs: seq<seq<T>>)
    requires 0 < n <= |hands| && count <= |deck|
    ensures |hs| == |hands|
  {
    seq(|hands|, k requires 0 <= k < |hands| =>
      if k < n then hands[k] + Dealt(deck, n, count, k) else hands[k])
  }

  /** Dealing no card changes nothing. */
  lemma DealIntoNothing<T>(hands: seq<seq<T>>, deck: seq<T>, n: nat)
    requires 0 < n <= |hands|
    ensures DealInto(hands, deck, n, 0) == hands
  {
    var hs := DealInto(hands, deck, n, 0);
    forall k | 0 <= k < |hands|
      ensures hs[k] == hands[k]
    {
      if k < n {
        assert hs[k] == hands[k] + [];
      }
    }
  }

  /** Dealing one more card appends it to seat count mod n and to no other. */
  lemma DealIntoStep<T>(hands: seq<seq<T>>, deck: seq<T>, n: nat, count: nat)
    requires 0 < n <= |hands| && count < |deck|
    ensures DealInto(hands, deck, n, count + 1)
         == DealInto(hands, deck, n, count)[count % n := DealInto(hands, deck, n, count)[count % n] + [deck[count]]]
  {
    var before := DealInto(hands, deck, n, count);
    var after := DealInto(hands, deck, n, count + 1);
    forall k | 0 <= k < |hands|
      ensures after[k] == before[count % n := before[count % n] + [deck[count]]][k]
    {
      if k < n && k == count % n {
        assert Dealt(deck, n, count + 1, k) == Dealt(deck, n, count, k) + [deck[count]];
      }
    }
  }

  /** Dealing moves cards and creates none: the hands afterwards hold exactly
      what they held before plus the dealt prefix of the deck. */
  lemma {:induction false} DealIntoConserves<T>(hands: seq<seq<T>>, deck: seq<T>, n: nat, count: nat)
    requires 0 < n <= |hands| && count <= |deck|
    ensures FlatMultiset(DealInto(hands, deck, n, count)) == FlatMultiset(hands) + multiset(deck[..count])
  {
    if count == 0 {
      DealIntoNothing(hands, deck, n);
    } else {
      var c := count - 1;
      var before := DealInto(hands, deck, n, c);
      var seat := c % n;
      assert seat < |before|;
      DealIntoConserves(hands, deck, n, c);
      DealIntoStep(hands, deck, n, c);
      FlatMultisetAppend(before, seat, deck[c]);
      var after := DealInto(hands, deck, n, count);
      assert after == before[seat := before[seat] + [deck[c]]];
      assert FlatMultiset(after) == FlatMultiset(before) + multiset{deck[c]};
      PrefixGrows(deck, c);
      calc {
        FlatMultiset(after);
        FlatMultiset(before) + multiset{deck[c]};
        FlatMultiset(hands) + multiset(deck[..c]) + multiset{deck[c]};
        FlatMultiset(hands) + (multiset(deck[..c]) + multiset{deck[c]});
        FlatMultiset(hands) + multiset(deck[..count]);
      }
    }
  }

  /** One pass of the dealing loop takes the hands dealt `i` cards to the
      hands dealt `i + 1`. */
  lemma PushStep<T>(hands: seq<seq<T>>, deck: seq<T>, n: nat, i: nat, out: seq<seq<T>>)
    requires 0 < n <= |hands| && i < |deck| && out == DealInto(hands, deck, n, i)
    ensures i % n < |out|
    ensures out[i % n := out[i % n] + [deck[i]]] == DealInto(hands, deck, n, i + 1)
  {
    DealIntoStep(hands, deck, n, i);
  }

  /** The dealing loop as written: for i below `count`, push deck[i] onto
      hand i mod n. */
  method RoundRobin<T>(hands: seq<seq<T>>, deck: seq<T>, n: nat, count: nat) returns (out: seq<seq<T>>)
    requires 0 < n <= |hands| && count <= |deck|
    ensures out == DealInto(hands, deck, n, count)
  {
    out := hands;
    DealIntoNothing(hands, deck, n);
    var i := 0;
    while i < count
      invariant 0 <= i <= count
      invariant out == DealInto(hands, deck, n, i)
    {
      PushStep(hands, deck, n, i, out);
      out := out[i % n := out[i % n] + [deck[i]]];
      i := i + 1;
    }
  }

  datatype DealError = UnsupportedPlayerCount | NotEnoughCards

  /** `n` empty hands. */
  function EmptyHands<T>(n: nat): (hs: seq<seq<T>>)
    ensures |hs| == n && forall k :: 0 <= k < n ==> hs[k] == []
  {
    seq(n, _ => [])
  }

  /** Dealing n * c cards round n seats gives seat k exactly c cards:
      deck[k], deck[k + n], ... */
  lemma FullDealSeat<T>(deck: seq<T>, n: nat, c: nat, k: nat)
    requires 0 < n && n * c <= |deck| && k < n
    ensures |Dealt(deck, n, n * c, k)| == c
    ensures forall t :: 0 <= t < c ==> k + t * n < n * c && Dealt(deck, n, n * c, k)[t] == deck[k + t * n]
  {
    DivModUnique(n * c, n, c, 0);
    DealtLayout(deck, n, n * c, k);
  }

  /** Dealing onto empty hands: each hand is exactly its round-robin share. */
  lemma DealIntoEmpty<T>(deck: seq<T>, n: nat, count: nat)
    requires 0 < n && count <= |deck|
    ensures forall k :: 0 <= k < n ==> DealInto(EmptyHands(n), deck, n, count)[k] == Dealt(deck, n, count, k)
  {
    forall k | 0 <= k < n
      ensures DealInto(EmptyHands(n), deck, n, count)[k] == Dealt(deck, n, count, k)
    {
      assert EmptyHands<T>(n)[k] == [];
      assert DealInto(EmptyHands(n), deck, n, count)[k] == EmptyHands<T>(n)[k] + Dealt(deck, n, count, k);
    }
  }

  /** The same for every seat at once. */
  lemma FullDealLayout<T>(deck: seq<T>, n: nat, c: nat)
    requires 0 < n && n * c <= |deck|
    ensures forall k :: 0 <= k < n ==> |Dealt(deck, n, n * c, k)| == c
    ensures forall k, t :: 0 <= k < n && 0 <= t < |Dealt(deck, n, n * c, k)| ==>
              k + t * n < n * c && Dealt(deck, n, n * c, k)[t] == deck[k + t * n]
  {
    forall k | 0 <= k < n
      ensures |Dealt(deck, n, n * c, k)| == c
      ensures forall t :: 0 <= t < |Dealt(deck, n, n * c, k)| ==>
                k + t * n < n * c && Dealt(deck, n, n * c, k)[t] == deck[k + t * n]
    {
      FullDealSeat(deck, n, c, k);
    }
  }

  /** The first deal. `deck` is the freshly built deck of the table (building
      it is what rejects a table size other than 4 or 6); a deck shorter than
      n * cardsPerPlayer is rejected. */
  function DealFirstSet(numPlayers: int, deck: seq<Card>): (r: Result<seq<seq<Card>>, DealError>)
    ensures numPlayers != 4 && numPlayers != 6 <==> r == Err(UnsupportedPlayerCount)
    ensures r == Err(NotEnoughCards) <==>
              (numPlayers == 4 || numPlayers == 6) && |deck| < numPlayers * CardsPerPlayer(numPlayers)
    ensures r.Ok? ==> |r.value| == numPlayers
    ensures r.Ok? ==> forall k :: 0 <= k < numPlayers ==> |r.value[k]| == CardsPerPlayer(numPlayers)
    ensures r.Ok? ==> forall k, t :: 0 <= k < numPlayers && 0 <= t < |r.value[k]| ==>
              r.value[k][t] == deck[k + t * numPlayers]
  {
    if numPlayers != 4 && numPlayers != 6 then Err(UnsupportedPlayerCount)
    else
      var n: nat := numPlayers;
      var total := n * CardsPerPlayer(n);
      if |deck| < total then Err(NotEnoughCards)
      else
        var hs := DealInto(EmptyHands(n), deck, n, total);
        DealIntoEmpty(deck, n, total);
        FullDealLayout(deck, n, CardsPerPlayer(n));
        Ok(hs)
  }

  /** The second deal: up to n * cardsPerPlayer further cards go round the
      seats from seat 0; a short deck is dealt out as far as it goes. Earlier
      cards stay in front and the deck itself is only read. */
  function DealSecondSet(deck: seq<Card>, hands: seq<seq<Card>>, numPlayers: int): (hs: seq<seq<Card>>)
    requires numPlayers <= 0 || numPlayers <= |hands|
    ensures |hs| == |hands|
    ensures numPlayers <= 0 ==> hs == hands
    ensures forall k :: 0 <= k < |hands| ==> |hands[k]| <= |hs[k]| && hs[k][..|hands[k]|] == hands[k]
    ensures forall k :: 0 <= k < |hands| && numPlayers <= k ==> hs[k] == hands[k]
  {
    if numPlayers <= 0 then hands
    else DealInto(hands, deck, numPlayers, SecondDealCount(deck, numPlayers))
  }

  /** How many cards the second deal hands out. */
  function SecondDealCount(deck: seq<Card>, numPlayers: int): (count: nat)
    requires numPlayers > 0
    ensures count <= |deck|
  {
    Min(numPlayers * CardsPerPlayer(numPlayers), |deck|)
  }

  /** The second deal hands out exactly min(n * cardsPerPlayer, |deck|)
      cards, taken from the front of the deck, and nothing else. */
  lemma DealSecondSetConserves(deck: seq<Card>, hands: seq<seq<Card>>, numPlayers: int)
    requires 0 < numPlayers <= |hands|
    ensures FlatMultiset(DealSecondSet(deck, hands, numPlayers))
         == FlatMultiset(hands) + multiset(deck[..Min(numPlayers * CardsPerPlayer(numPlayers), |deck|)])
  {
    DealIntoConserves(hands, deck, numPlayers, SecondDealCount(deck, numPlayers));
  }

  /** Seat k's new cards are deck[k], deck[k + n], ... after what it held. */
  lemma DealSecondSetLayout(deck: seq<Card>, hands: seq<seq<Card>>, numPlayers: int, k: nat, t: nat)
    requires 0 < numPlayers <= |hands| && k < numPlayers
    requires |hands[k]| <= t < |DealSecondSet(deck, hands, numPlayers)[k]|
    ensures 0 <= k + (t - |hands[k]|) * numPlayers < |deck|
    ensures DealSecondSet(deck, hands, numPlayers)[k][t] == deck[k + (t - |hands[k]|) * numPlayers]
  {
    var n: nat := numPlayers;
    var count := SecondDealCount(deck, n);
    var d := Dealt(deck, n, count, k);
    assert DealSecondSet(deck, hands, numPlayers)[k] == hands[k] + d;
    var u := t - |hands[k]|;
    assert (hands[k] + d)[t] == d[u];
    DealtLayout(deck, n, count, k);
    assert 0 <= k + u * n < count && d[u] == deck[k + u * n];
  }

  function Min(a: int, b: int): int
  {
    if a < b then a else b
  }

  /** In a second deal each seat gains its round-robin share of
      min(n * cardsPerPlayer, |deck|) cards: shares differ by at most one and
      lower seats are served first. */
  lemma DealSecondSetShares(deck: seq<Card>, hands: seq<seq<Card>>, numPlayers: int, k1: nat, k2: nat)
    requires 0 < numPlayers <= |hands| && k1 <= k2 < numPlayers
    ensures var hs := DealSecondSet(deck, hands, numPlayers);
            var count := Min(numPlayers * CardsPerPlayer(numPlayers), |deck|);
            && |hs[k1]| - |hands[k1]| == count / numPlayers + (if k1 < count % numPlayers then 1 else 0)
            && |hs[k2]| - |hands[k2]| <= |hs[k1]| - |hands[k1]| <= |hs[k2]| - |hands[k2]| + 1
  {
    var count := SecondDealCount(deck, numPlayers);
    DealtLayout(deck, numPlayers, count, k1);
    DealtBalanced(deck, numPlayers, count, k1, k2);
  }
}

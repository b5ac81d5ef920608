# 28 — a verified model of the rules engine

This project models the rules core of a card game for four or six players in
the "28" family, written in Dafny. The game uses a 32- or 36-card deck and
two teams: the even-numbered seats play against the odd-numbered seats.

A round runs like this:
- The first set of cards is dealt round the table, starting at seat 0,
  whoever deals.
- The first auction (bidding1) starts; the dealer is its forced opener.
- A fold follows: one seat lays one card aside.
- The second set is dealt and the second auction (bidding2) is held.
- Tricks are played. The target suit is the suit of the first card shown as
  trump ("thurp") or folded, and otherwise the suit led. Among the lead card
  and the target-suit cards, the first one with the most points wins, so the
  lead keeps the trick unless a target-suit card strictly outscores it. The
  winner's team scores the points of every card in the trick.
- At the end of the round the bidding team made its bid exactly when its
  points reach the bid. The deal then passes to the next seat.

Modules, one per source file, plus shared helpers:

| module | models |
|---|---|
| `Results` | `Option` and `Result`; a thrown error becomes an `Err` value |
| `Arith` | JavaScript's truncating `%` (`JsRem`) and facts about `/` and `%` |
| `Seqs` | searching and summing sequences, and multisets of a table's hands |
| `Faces` | suits, ranks, rank points, and the suit-by-rank nested loop that builds a deck |
| `Shuffle` | `shuffle.ts`: Fisher–Yates over a copy |
| `Cards` | `cards.ts`: the 24-card catalogue with id, value and priority |
| `Deck` | `deck.ts`: the 32/36-card deck the engine deals from, shuffled |
| `Deal` | `deal.ts`: dealFirstSet and dealSecondSet, dealing round-robin |
| `Bidding` | `bidding.ts`: the auction state machine |
| `Tricks` | the trick-resolution part of `engine.ts`: priority suit, winner, points |
| `Engine` | `engine.ts`: the table state and its operations |

The model is purely functional:
- Every mutating method of the engine becomes a function from the old table
  to a new one. Where the source throws, the function returns a `Result`.
- Each random number becomes an integer draw. `Math.floor(random() * (i + 1))`
  becomes a draw `j` with `0 <= j <= i`, supplied by the caller.

The two halves of the code are independent of each other. `engine.ts` does
not call `bidding.ts`, `deal.ts` or `cards.ts`. It has its own bid checks,
its own deal loops, and it builds its deck with `deck.ts`. The model keeps
that split: the `Bidding` auction and the engine's `MakeBid` are separate
operations, and each is modelled as its own code is written.

## Model

| member | source | states |
|---|---|---|
| Arith.JsRem | src/logic/engine.ts:100 | JavaScript's remainder: it differs from the dividend by a multiple of the divisor, its magnitude is below the divisor's, and it takes the dividend's sign (zero counting for both) — the truncating remainder, pinned down completely |
| Arith.JsRemNonNegative | src/logic/engine.ts:163 | for a seat index and a positive table size, JavaScript's `%` agrees with the mathematical modulus, so the next turn is again a seat |
| Shuffle.Swap | src/logic/shuffle.ts:8 | the destructuring swap exchanges positions i and j and leaves every other position as it was |
| Shuffle.SwapPermutes | src/logic/shuffle.ts:8 | a swap keeps exactly the same cards |
| Shuffle.ShuffleDownPermutes | src/logic/shuffle.ts:6-9 | the loop from any position down to 1 keeps the length and the multiset of cards |
| Shuffle.ShuffleDownKeepsAbove | src/logic/shuffle.ts:6-9 | the steps from position i downwards never touch the positions above i, which are already settled |
| Shuffle.ShuffledPermutes | src/logic/shuffle.ts:3-11 | whatever the random draws, the result is a permutation of the input |
| Shuffle.ShortArraysUnchanged | src/logic/shuffle.ts:6 | an array of length 0 or 1 comes back unchanged, because the loop body never runs |
| Shuffle.Shuffle | src/logic/shuffle.ts:3-11 | the loop over a copy computes the recursive definition of the shuffle and returns a permutation of its input |
| Faces.GridLength | src/logic/deck.ts:34-39 | the nested suit-by-rank loop produces suits × ranks cards |
| Faces.GridCount | src/logic/deck.ts:34-39 | with distinct suits and distinct ranks, the nested loop yields each (suit, rank) card exactly once, and no card outside the lists |
| Faces.GridSum | src/logic/deck.ts:34-39 | the points of the nested loop's cards total the number of suits times the points of one suit's ranks |
| Faces.SixRanksScoreSeven | src/logic/deck.ts:22-28 | J, 9, A, 10, K, Q are worth 7 points together (3 + 2 + 1 + 1) |
| Seqs.IndexOf | src/logic/cards.ts:34 | `indexOf` and `findIndex` (engine.ts:149), one definition for both: the position of the first occurrence, and -1 exactly when the element is absent |
| Cards.ParseIdRoundTrip | src/logic/cards.ts:30 | the id `suit-rank` reads back as its suit and rank |
| Cards.IdInjective | src/logic/cards.ts:30 | different (suit, rank) pairs never share an id |
| Cards.GenerateDeck | src/logic/cards.ts:22-39 | the catalogue has 24 cards, each built by the card constructor from one of the six ranks |
| Cards.GenerateDeckPairsOnce | src/logic/cards.ts:27-38 | every (suit, rank) with one of the six ranks appears exactly once; any other rank never appears |
| Cards.GenerateDeckIdsUnique | src/logic/cards.ts:30 | no two positions of the catalogue carry the same id |
| Cards.GenerateDeckValueTotal | src/logic/cards.ts:13-20 | the scoring values of the catalogue total 28 |
| Cards.PriorityIsRankPosition | src/logic/cards.ts:34 | a card's priority is its rank's position in the high-to-low rank order (0 for J) |
| Cards.PriorityDistinguishesRanks | src/logic/cards.ts:34 | two ranks of the catalogue have the same priority exactly when they are the same rank |
| Cards.ValueFollowsRankOrder | src/logic/cards.ts:12-20 | going down the rank order, a card's value never increases |
| Deck.RanksFor | src/logic/deck.ts:10-20 | ranks exist exactly for 4 or 6 players: 8 or 9 distinct ranks, J, 9, A, 10, K, Q followed by 8, 7 and, for six players, 6 |
| Deck.CreateDeck | src/logic/deck.ts:10-47 | fails exactly for unsupported table sizes; otherwise returns 32 or 36 cards (4 × ranks), a permutation of the ordered deck |
| Deck.ArrangedDeckPairsOnce | src/logic/deck.ts:34-39 | any arrangement of the ordered deck holds each (suit, rank) of its ranks once, and each card's points come from the points table |
| Deck.ArrangedDeckTotalPoints | src/logic/deck.ts:22-32 | any arrangement of the 4- or 6-player deck carries 28 points in all |
| Deck.CreateDeckPairsOnce | src/logic/deck.ts:34-46 | the shuffled deck holds each (suit, rank) of the table's ranks exactly once, whatever the draws |
| Deck.CreateDeckTotalPoints | src/logic/deck.ts:22-46 | the shuffled deck carries 28 points, whatever the draws |
| Deal.DealtLayout | src/logic/deal.ts:15-17 | with `count` cards dealt round n seats, seat k receives cards k, k + n, k + 2n, … and count / n of them, plus one if k < count % n |
| Deal.DealtBalanced | src/logic/deal.ts:15-17 | an earlier seat never has fewer cards than a later one, and has at most one more |
| Deal.DealIntoNothing | src/logic/deal.ts:15 | dealing no cards leaves the hands as they were |
| Deal.DealIntoStep | src/logic/deal.ts:16 | dealing one more card puts the next deck card at the end of seat i % n's hand and changes nothing else |
| Deal.DealIntoConserves | src/logic/deal.ts:15-17 | the hands gain exactly the first `count` cards of the deck |
| Deal.RoundRobin | src/logic/deal.ts:15-17 | the push loop computes the declarative round-robin deal |
| Deal.EmptyHands | src/logic/deal.ts:6 | n hands, all empty |
| Deal.FullDealLayout | src/logic/deal.ts:15-17 | with n × c cards dealt, every seat k receives exactly c cards, the deck cards k + t·n |
| Deal.DealFirstSet | src/logic/deal.ts:4-21 | fails for unsupported table sizes and for a deck too short for the first set (n × 4 or n × 3 cards); otherwise seat k holds deck[k + t·n] for each t below its share |
| Deal.DealSecondSet | src/logic/deal.ts:23-40 | hands only grow, at their ends; seats outside the table are untouched; a non-positive player count changes nothing |
| Deal.DealSecondSetConserves | src/logic/deal.ts:28-37 | the hands gain exactly the first min(n × per-seat, deck length) deck cards, so a short deck is dealt out completely |
| Deal.DealSecondSetLayout | src/logic/deal.ts:35-37 | the t-th new card of seat k is deck[k + t·n] |
| Deal.DealSecondSetShares | src/logic/deal.ts:35-37 | when the deck runs short, seats still get balanced shares: count / n each, one more for the first count % n seats |
| Bidding.SeatOrderIsRotation | src/logic/bidding.ts:24 | from a non-negative start, the rotation lists seat (start + i) % n at position i, and every seat 0 … n-1 exactly once |
| Bidding.NegativeStartGivesNegativeSeat | src/logic/bidding.ts:24 | with a negative start, JavaScript's `%` puts a negative seat number into the rotation |
| Bidding.CreateValid | src/logic/bidding.ts:23-38 | a newly created auction satisfies the auction invariant |
| Bidding.Transition | src/logic/bidding.ts:40-77 | each of the six errors (already finished, not the seat's turn, opener may not pass, bid too low, bid not higher, bid above the ceiling) arises exactly when its check fails and no earlier check did; an action is accepted exactly when all checks pass; the turn advances one place; a pass adds the seat to the passed set; a bid becomes the standing bid and clears that set; the auction is finished exactly when the closing rule holds |
| Bidding.ApplyBid | src/logic/bidding.ts:45-48 | as written, a pass is refused exactly when the forced opener passes at turn index 0, whether or not a bid already stands |
| Bidding.ApplyBidFirstTurn | src/logic/bidding.ts:21 | as documented, the forced opener is refused a pass only on the opening turn, before any bid |
| Bidding.TransitionKeepsValid | src/logic/bidding.ts:40-77 | every accepted action keeps the auction invariant |
| Bidding.RunKeepsValid | src/logic/bidding.ts:40-77 | any run of accepted actions keeps the auction invariant |
| Bidding.RaiseBeatsStanding | src/logic/bidding.ts:54-56 | an accepted bid strictly beats the standing bid |
| Bidding.RunNeverLowers | src/logic/bidding.ts:54-58 | over any run, the standing bid never drops |
| Bidding.FinishedRejectsEverything | src/logic/bidding.ts:41 | once the auction has finished, every further action is refused |
| Bidding.NonPassersMembers | src/logic/bidding.ts:67 | the non-passers are exactly the seats of the rotation that have not passed |
| Bidding.ClosesAfterAllOthers | src/logic/bidding.ts:66-70 | after a bid, the bidder is the only non-passer exactly once every other seat has passed |
| Bidding.PassRound | src/logic/bidding.ts:49-74 | after a bid, the passes of the following seats are accepted one by one; the auction stays open until the last of them and closes with it |
| Bidding.BidThenOthersPass | src/logic/bidding.ts:40-77 | a seat that may speak can make any legal bid, and if every other seat then passes, the auction closes with that bid standing |
| Bidding.BidStartsRound | src/logic/bidding.ts:53-62 | an accepted bid leaves the passed set empty and the turn with the next seat |
| Bidding.AsWrittenRunOpenerNeverPasses | src/logic/bidding.ts:45-50 | under the rule as written, the forced opener at index 0 of the rotation is never recorded as passed |
| Bidding.AsWrittenOpenerWinsClosed | src/logic/bidding.ts:45-74 | under the rule as written, a closed auction always has the forced opener as the standing bidder |
| Bidding.AsWrittenDealerAlwaysWins | src/logic/bidding.ts:45-48 | with the dealer as forced opener, every bidding1 auction that closes is won by the dealer |
| Bidding.DealerMustOpen | src/logic/bidding.ts:45-48 | the dealer's opening pass is refused; 14 from the dealer followed by three passes closes the auction at 14 |
| Bidding.AsWrittenDealerCannotConcede | src/logic/bidding.ts:45-48 | after 14 from the dealer, 15 from seat 1 and passes from seats 2 and 3, the dealer's pass is refused |
| Bidding.FirstTurnRuleLetsDealerConcede | src/logic/bidding.ts:21 | under the documented rule, the same auction closes with seat 1's 15 |
| Tricks.FirstFlagged | src/logic/engine.ts:173-174 | the first card shown as trump or folded, and -1 exactly when there is none |
| Tricks.WinnerIsWinner | src/logic/engine.ts:177-188 | the scan picks a card that may take the trick (the lead or the target suit) with the most points, and the earliest such card |
| Tricks.WinnerUnique | src/logic/engine.ts:177-188 | at most one card has that property, so the winner is well defined |
| Tricks.LeadKeepsUnlessOutscored | src/logic/engine.ts:177-188 | the lead card wins exactly when no target-suit card has strictly more points; otherwise the winner is a target-suit card that outscores the lead |
| Tricks.TrickPointsAnyOrder | src/logic/engine.ts:194 | a trick's points do not depend on the order its cards were played in |
| Tricks.TrickPointsBound | src/logic/engine.ts:194 | with non-negative card points, a trick carries at least the points of each of its cards |
| Engine.TeamOf | src/logic/engine.ts:201-206 | the first team whose list contains the seat, and -1 exactly when no team does |
| Engine.TeamOfSeat | src/logic/engine.ts:39 | with the constructor's teams, a seat's team is its parity, and anything that is not a seat has team -1 |
| Engine.NewGame | src/logic/engine.ts:28-51 | fails exactly for table sizes other than 4 and 6; otherwise the table satisfies the invariant, hands are empty, no bid or points, dealer 0, and the deck is a full deck |
| Engine.StartRound | src/logic/engine.ts:54-72 | fails exactly when the deck is shorter than one set; otherwise bidding1 starts with the dealer to speak, the deck loses exactly its first set of cards (the rest is the deck's suffix), and nothing else changes |
| Engine.StartRoundConserves | src/logic/engine.ts:61-67 | the first deal only moves cards from the deck into hands |
| Engine.StartRoundLayout | src/logic/engine.ts:61-64 | seat k keeps its hand and gains cards deck[k], deck[k + n], …, one set's share |
| Engine.MakeBid | src/logic/engine.ts:75-101 | refused outside bidding, for a dealer's pass in bidding1, and for values outside 14–20 or 21–28, each exactly then, and accepted exactly when none of these applies (no turn check); then the turn moves to the bidder's next seat and only a higher bid replaces the standing one |
| Engine.BidsNeverLower | src/logic/engine.ts:94-100 | over any run of calls the standing bid never drops, and only the standing bid and the turn change |
| Engine.BidsInRange | src/logic/engine.ts:87-98 | a standing bid set during a bidding phase lies within that phase's bounds |
| Engine.Without | src/logic/engine.ts:109 | filtering removes every copy of the card and keeps everything else |
| Engine.DealSecond | src/logic/engine.ts:117-135 | bidding2 starts with the dealer to speak, the deck loses its first min(set size, deck length) cards and keeps the rest in order, and nothing but hands, deck, phase and turn changes |
| Engine.DealSecondConserves | src/logic/engine.ts:126-130 | the second deal only moves cards from the deck into hands |
| Engine.FoldCard | src/logic/engine.ts:104-135 | refused for a seat that does not exist or has already folded, each exactly then, and accepted for every other seat (the hand is not checked); then the fold is recorded, the second deal takes the deck's first min(set size, deck length) cards, bidding2 starts with the dealer to speak, and nothing but hands, deck, folds, phase and turn changes |
| Engine.FoldCardShare | src/logic/engine.ts:108-130 | after the fold each seat keeps its hand (the folding seat without the folded card) as a prefix, followed by its round-robin share of the second deal: count / n cards, one more for the first count % n seats |
| Engine.FoldCardLayout | src/logic/engine.ts:126-130 | the t-th card of seat k past what it kept is deck card k + (t − kept)·n |
| Engine.FoldCardConserves | src/logic/engine.ts:108-113 | the fold takes out of play exactly the copies of the folded card the seat held; all other cards stay |
| Engine.FoldedCardLeavesHand | src/logic/engine.ts:109-113 | after the fold the card is in the seat's hand only if the second deal brought it from the deck |
| Engine.StartPlayPhase | src/logic/engine.ts:138-142 | play begins with an empty trick; nothing else changes |
| Engine.Award | src/logic/engine.ts:190-195 | scoring a trick changes only the team points |
| Engine.AwardGoesToWinner | src/logic/engine.ts:177-195 | the winning card is the one with the defining property, its seat's team gains the trick's points, and the other team's points stay |
| Engine.ResolveTrick | src/logic/engine.ts:167-198 | fails exactly when no trick is open or it is empty; otherwise only the points change: the team of the trick's winner gains the trick's points and the other team's points stay |
| Engine.PlayCard | src/logic/engine.ts:145-164 | refused for a seat that does not exist, a card the seat lacks, or no open trick, each exactly then, and accepted in every other case (the phase is not checked); then the first copy of the card is spliced out of that hand, the other cards keeping their order, no other hand changes, and the turn moves to the next seat |
| Engine.PlayCardScores | src/logic/engine.ts:148-160 | a play moves its card's points from the hand onto the table, scored or not: points won plus points in the open trick grow by exactly the card's points |
| Engine.PlayCardExtendsTrick | src/logic/engine.ts:154-160 | a play that does not fill the trick appends exactly its entry and scores nothing; one that fills it leaves an empty trick, and the winner's team gains the trick's points while the other team's stay |
| Engine.FoldFlagNeedsHeldCard | src/logic/engine.ts:149-154 | the folded card is marked as folded when played, and can only be played while it is in the hand |
| Engine.PrepareNextRound | src/logic/engine.ts:229-241 | the deal moves one seat on and the turn goes to the new dealer; hands, folds, bid and points are cleared; table size and teams are kept |
| Engine.NextRoundHoldsFullDeck | src/logic/engine.ts:232-236 | the next round starts with a complete deck and empty hands |
| Engine.Judge | src/logic/engine.ts:216-223 | the bidding team is the bidder's parity, and the bid was made exactly when that team's points reach its value |
| Engine.CheckRoundEnd | src/logic/engine.ts:209-226 | nothing happens until every hand is empty and a bid stands; then the verdict is the bidding team and whether it made its bid, and the table becomes exactly the prepared next round: cleared, phase init, the next dealer to speak, the same size, teams and open trick |
| Engine.DealerRotates | src/logic/engine.ts:230 | after k round ends the dealer has moved k seats round the table |
| Engine.DealerNeverRepeats | src/logic/engine.ts:230 | no seat deals twice within any n consecutive rounds, so each seat deals once in every n rounds |

## Left out

- Console output (`console.log`, `console.warn`) is left out. It has no effect on the state.
- `Math.random` and the optional seeded source of `shuffle` are left out. They are replaced by the integer draws they produce. Uniformity of the shuffle is a probabilistic property and is not stated.
- `src/pages/DevRoundTest.tsx` and the rest of the user interface are not part of this model.
- The JavaScript object identity in `hand.filter(c => c !== card)`, `findIndex(c => c === card)` and `foldedCard === card` is modelled as value equality. Every deck holds each card value once, so the two agree on cards taken from one deck.
- `PlayerState.index` is left out. The constructor always sets it to the seat number, so a seat is identified by its position.
- `declaredBid` is left out: no code writes it.
- Player indices are integers. Fractional or non-numeric indices, which JavaScript would accept, are not modelled.
- Engine.StartRound: with a deck shorter than one set, the source pushes `undefined` into hands. The model returns `DeckTooSmall` instead of modelling holes in a hand.
- Engine.PlayCard: with no open trick, the source removes the card from the hand and then fails on `currentTrick!.push`. The model refuses the play with `NoOpenTrick` and leaves the state as it was, rather than modelling that partial update.
- Engine.ResolveTrick: with an empty trick, the source fails on reading the lead card's suit. The model returns `NoOpenTrick`.
- Engine.Award: the model relies on every played card coming from a seat of the table, so the winner's team is 0 or 1. The source's `teamPoints[-1]` entry for an unknown seat is not modelled.
- Engine.CheckRoundEnd: the source only logs whether the bid was made. The model returns that verdict next to the new table.
- Engine.PrepareNextRound: the source leaves an open trick in place, and so does the model. The claim that the next round starts empty is made about hands, folds, bid and points only.
- Deal.DealSecondSet: it requires a table of at least `numPlayers` hands when `numPlayers` is positive. With fewer hands the source pushes into the hands that exist and then fails with a TypeError on the first missing one, leaving the earlier pushes in place; when the deck is too short to reach a missing hand it returns normally. Neither path is modelled. The engine always passes one hand per seat, so its calls never reach them.
- Deal.RoundRobin: its contract is equality with the declarative deal. That the deal conserves cards is proved once, about the declarative deal (`Deal.DealIntoConserves`), not repeated for the loop.
- Engine phase order: the code checks no phase or turn in `playCard`, `foldCard` or `startRound`, and `makeBid` checks the phase but not whose turn it is. The model follows the code and adds no such checks. Likewise a finished trick passes the turn to the next seat, not to the trick's winner, and no operation moves the phase to `end`.
- Bidding1 ceiling: `bidding.ts` sets no upper bound for bidding1, while `engine.ts` caps it at 20. Each module keeps its own code's bound.

## Findings

| source | as written | input that shows it | evidently intended | confidence | as-written member | corrected member |
|---|---|---|---|---|---|---|
| src/logic/bidding.ts:45 | the forced opener may not pass whenever the turn index is 0, which recurs on every trip round the table | 4 seats, dealer 0 forced: bid(0, 14), bid(1, 15), pass(2), pass(3), pass(0) — the dealer's pass is refused, so seat 1 can never win with 15, and every closed bidding1 auction is won by the dealer | the forced opener is barred from passing only on its first turn, as the doc comment at bidding.ts:21 says | not executed | Bidding.AsWrittenDealerCannotConcede | Bidding.FirstTurnRuleLetsDealerConcede |

/** The auction (bidding.ts): seats speak in a fixed rotation starting at the
    dealer; a bid must beat the standing bid, a bid clears the record of who
    has passed, and the auction closes once every seat but the standing
    bidder has passed since the last bid, or everyone has passed with no bid. */
module Bidding {
  import opened Results
  import opened Seqs
  import opened Arith

  datatype Phase = Bidding1 | Bidding2

  /** The standing bid: who made it and for how much. */
  datatype Bid = Bid(player: int, value: int)

  /** What a seat does on its turn. */
  datatype Action = MakeBid(player: int, value: int) | Pass(player: int)

  datatype State = State(
    phase: Phase,
    order: seq<int>,          // seats in speaking order, from the starting seat
    turn: int,                // index into `order` of the seat to speak
    passed: set<int>,         // seats that passed since the last bid
    highest: Option<Bid>,
    finished: bool,
    forcedOpener: Option<int>,
    minBid: int,
    maxBid: Option<int>)

  datatype BidError =
    | AlreadyFinished
    | NotPlayersTurn
    | OpenerCannotPass
    | BidTooLow
    | BidNotHigher
    | BidAboveMax

  /** Which turns the forced-opener rule covers. `AtTurnZero` is the rule as
      the code applies it: whenever the turn index is 0. `OnFirstTurnOnly`
      is the rule its documentation describes: only the opening turn, before
      any bid has been made. */
  datatype OpenerRule = AtTurnZero | OnFirstTurnOnly

  /** Seat i of the rotation is (startIndex + i) % playersCount, with
      JavaScript's remainder; a table of no seats has an empty rotation. */
  function SeatOrder(playersCount: int, startIndex: int): (order: seq<int>)
    ensures |order| == if playersCount > 0 then playersCount else 0
  {
    if playersCount <= 0 then []
    else seq(playersCount, i => JsRem(startIndex + i, playersCount))
  }

  /** A fresh auction: bidding1 has floor 14 and no ceiling, bidding2 has
      floor 21 and ceiling 28. */
  function Create(playersCount: int, startIndex: int, phase: Phase, forcedOpener: Option<int>): (s: State)
    ensures s.order == SeatOrder(playersCount, startIndex)
    ensures s.turn == 0 && s.passed == {} && s.highest == None && !s.finished
    ensures s.phase == phase && s.forcedOpener == forcedOpener
    ensures s.minBid == (if phase == Bidding1 then 14 else 21)
    ensures s.maxBid == (if phase == Bidding2 then Some(28) else None)
  {
    State(phase, SeatOrder(playersCount, startIndex), 0, {}, None, false, forcedOpener,
          if phase == Bidding1 then 14 else 21,
          if phase == Bidding2 then Some(28) else None)
  }

  /** The ceiling applies only when it is set and non-zero (JavaScript
      truthiness of the stored maximum). */
  predicate Capped(s: State)
  {
    s.maxBid.Some? && s.maxBid.value != 0
  }

  /** `value` lies between the floor and the ceiling, if any. */
  predicate LegalBound(s: State, value: int)
  {
    value >= s.minBid && (Capped(s) ==> value <= s.maxBid.value)
  }

  /** `value` is an acceptable bid in `s`: within the bounds and above the
      standing bid. */
  predicate LegalValue(s: State, value: int)
  {
    LegalBound(s, value) && (s.highest.Some? ==> value > s.highest.value.value)
  }

  /** It is `player`'s turn to speak. */
  predicate IsTurnOf(s: State, player: int)
  {
    0 <= s.turn < |s.order| && s.order[s.turn] == player
  }

  /** The forced-opener rule rejects action `a`. */
  predicate OpenerBlocks(rule: OpenerRule, s: State, a: Action)
  {
    && a.Pass?
    && s.forcedOpener == Some(a.player)
    && s.turn == 0
    && (rule == OnFirstTurnOnly ==> s.highest.None?)
  }

  /** The seats of `order` that have not passed, in order. */
  function NonPassers(order: seq<int>, passed: set<int>): seq<int>
  {
    if |order| == 0 then []
    else (if order[0] in passed then [] else [order[0]]) + NonPassers(order[1..], passed)
  }

  /** The closing rule: with a standing bid, its bidder is the only seat that
      has not passed; without one, every seat has passed. */
  predicate FinishCondition(s: State)
  {
    if s.highest.Some? then NonPassers(s.order, s.passed) == [s.highest.value.player]
    else |s.passed| == |s.order|
  }

  /** Records an accepted action, moves the turn on one place round the
      rotation and re-evaluates the closing rule. */
  function Accept(s: State, a: Action): State
    requires |s.order| > 0
  {
    var t := match a
      case Pass(p) => s.(passed := s.passed + {p})
      case MakeBid(p, v) => s.(highest := Some(Bid(p, v)), passed := {});
    var t' := t.(turn := (s.turn + 1) % |s.order|);
    t'.(finished := FinishCondition(t'))
  }

  /** One auction step under the given opener rule. Every check precedes
      every change, so a rejected action leaves the caller's state as it was. */
  function Transition(rule: OpenerRule, s: State, a: Action): (r: Result<State, BidError>)
    ensures r == Err(AlreadyFinished) <==> s.finished
    ensures r == Err(NotPlayersTurn) <==> !s.finished && !IsTurnOf(s, a.player)
    ensures r == Err(OpenerCannotPass) <==> !s.finished && IsTurnOf(s, a.player) && OpenerBlocks(rule, s, a)
    ensures r.Ok? <==> && !s.finished && IsTurnOf(s, a.player) && !OpenerBlocks(rule, s, a)
                       && (a.MakeBid? ==> LegalValue(s, a.value))
    ensures r == Err(BidTooLow) <==>
              && !s.finished && IsTurnOf(s, a.player) && !OpenerBlocks(rule, s, a)
              && a.MakeBid? && a.value < s.minBid
    ensures r == Err(BidNotHigher) <==>
              && !s.finished && IsTurnOf(s, a.player) && !OpenerBlocks(rule, s, a)
              && a.MakeBid? && a.value >= s.minBid
              && s.highest.Some? && a.value <= s.highest.value.value
    ensures r == Err(BidAboveMax) <==>
              && !s.finished && IsTurnOf(s, a.player) && !OpenerBlocks(rule, s, a)
              && a.MakeBid? && a.value >= s.minBid
              && !(s.highest.Some? && a.value <= s.highest.value.value)
              && Capped(s) && a.value > s.maxBid.value
    ensures r.Ok? ==> var t := r.value;
              && t.phase == s.phase && t.order == s.order && t.forcedOpener == s.forcedOpener
              && t.minBid == s.minBid && t.maxBid == s.maxBid
              && t.turn == (s.turn + 1) % |s.order|
              && t.finished == FinishCondition(t)
    ensures r.Ok? && a.Pass? ==> r.value.passed == s.passed + {a.player} && r.value.highest == s.highest
    ensures r.Ok? && a.MakeBid? ==> r.value.passed == {} && r.value.highest == Some(Bid(a.player, a.value))
  {
    if s.finished then Err(AlreadyFinished)
    else if !IsTurnOf(s, a.player) then Err(NotPlayersTurn)
    else if OpenerBlocks(rule, s, a) then Err(OpenerCannotPass)
    else match a
      case Pass(_) => Ok(Accept(s, a))
      case MakeBid(_, value) =>
        if value < s.minBid then Err(BidTooLow)
        else if s.highest.Some? && value <= s.highest.value.value then Err(BidNotHigher)
        else if Capped(s) && value > s.maxBid.value then Err(BidAboveMax)
        else Ok(Accept(s, a))
  }

  /** `applyBid` as written: the forced opener may not pass at turn index 0. */
  function ApplyBid(s: State, a: Action): (r: Result<State, BidError>)
    ensures r == Err(OpenerCannotPass) <==>
              !s.finished && IsTurnOf(s, a.player) && a.Pass? && s.forcedOpener == Some(a.player) && s.turn == 0
  {
    Transition(AtTurnZero, s, a)
  }

  /** `applyBid` with the rule as documented: the forced opener may not pass
      on the opening turn only, before any bid stands. */
  function ApplyBidFirstTurn(s: State, a: Action): (r: Result<State, BidError>)
    ensures r == Err(OpenerCannotPass) <==>
              !s.finished && IsTurnOf(s, a.player) && a.Pass? && s.forcedOpener == Some(a.player)
              && s.turn == 0 && s.highest.None?
  {
    Transition(OnFirstTurnOnly, s, a)
  }

  /** Applies `acts` in order, stopping at the first rejected action. */
  function Run(rule: OpenerRule, s: State, acts: seq<Action>): Result<State, BidError>
  {
    if |acts| == 0 then Ok(s)
    else match Run(rule, s, acts[..|acts| - 1])
      case Ok(t) => Transition(rule, t, acts[|acts| - 1])
      case Err(e) => Err(e)
  }

  /** Running one more action continues from where the run stopped. */
  lemma RunSnoc(rule: OpenerRule, s: State, acts: seq<Action>, a: Action)
    ensures Run(rule, s, acts + [a])
         == if Run(rule, s, acts).Ok? then Transition(rule, Run(rule, s, acts).value, a) else Run(rule, s, acts)
  {
    assert (acts + [a])[..|acts|] == acts;
  }

  /** Running `xs` then `ys` is running `ys` from where `xs` left off. */
  lemma {:induction false} RunAppend(rule: OpenerRule, s: State, xs: seq<Action>, ys: seq<Action>)
    ensures Run(rule, s, xs + ys)
         == if Run(rule, s, xs).Ok? then Run(rule, Run(rule, s, xs).value, ys) else Run(rule, s, xs)
  {
    if |ys| == 0 {
      assert xs + ys == xs;
    } else {
      var init := ys[..|ys| - 1];
      var last := ys[|ys| - 1];
      assert xs + ys == (xs + init) + [last];
      assert ys == init + [last];
      RunAppend(rule, s, xs, init);
      RunSnoc(rule, s, xs + init, last);
      if Run(rule, s, xs).Ok? {
        RunSnoc(rule, Run(rule, s, xs).value, init, last);
      }
    }
  }

  // ----- The rotation -----

  /** From a non-negative start the rotation is (start + i) mod n, it begins
      at start mod n, and it lists every seat 0 .. n-1 exactly once. */
  lemma SeatOrderIsRotation(n: int, start: int)
    requires n > 0 && start >= 0
    ensures forall i :: 0 <= i < n ==> SeatOrder(n, start)[i] == (start + i) % n
    ensures Distinct(SeatOrder(n, start))
    ensures forall p :: p in SeatOrder(n, start) <==> 0 <= p < n
  {
    var order := SeatOrder(n, start);
    forall i | 0 <= i < n
      ensures order[i] == (start + i) % n
    {
      JsRemNonNegative(start + i, n);
    }
    forall i, j | 0 <= i < j < n
      ensures order[i] != order[j]
    {
      if order[i] == order[j] {
        ModInjective(start + i, start + j, n);
      }
    }
    forall p | 0 <= p < n
      ensures p in order
    {
      DivModBasics(p - start, n);
      var q := (p - start) / n;
      var i := (p - start) % n;
      assert start + i == (-q) * n + p;
      DivModUnique(start + i, n, -q, p);
      assert order[i] == p;
    }
  }

  /** JavaScript's remainder keeps the sign of the dividend, so a negative
      start index yields negative seats. */
  lemma NegativeStartGivesNegativeSeat()
    ensures SeatOrder(4, -1)[0] == -1
  {
    assert SeatOrder(4, -1)[0] == JsRem(-1, 4);
    assert JsRem(-1, 4) == -(1 % 4) == -1;
  }

  // ----- The state invariant -----

  /** What every auction state reachable from a non-empty table satisfies. */
  predicate Valid(s: State)
  {
    && |s.order| > 0
    && 0 <= s.turn < |s.order|
    && (forall p :: p in s.passed ==> p in s.order)
    && (s.highest.Some? ==> s.highest.value.player in s.order && LegalBound(s, s.highest.value.value))
    && s.finished == FinishCondition(s)
  }

  lemma CreateValid(playersCount: int, startIndex: int, phase: Phase, forcedOpener: Option<int>)
    requires playersCount > 0
    ensures Valid(Create(playersCount, startIndex, phase, forcedOpener))
  {
  }

  /** Every accepted action keeps the invariant: the turn stays in bounds,
      only seats of the rotation are recorded as passed, the standing bid
      respects the bounds, and `finished` is exactly the closing rule. */
  lemma TransitionKeepsValid(rule: OpenerRule, s: State, a: Action)
    requires Valid(s) && Transition(rule, s, a).Ok?
    ensures Valid(Transition(rule, s, a).value)
  {
  }

  lemma {:induction false} RunKeepsValid(rule: OpenerRule, s: State, acts: seq<Action>)
    requires Valid(s) && Run(rule, s, acts).Ok?
    ensures Valid(Run(rule, s, acts).value)
  {
    if |acts| > 0 {
      RunKeepsValid(rule, s, acts[..|acts| - 1]);
      TransitionKeepsValid(rule, Run(rule, s, acts[..|acts| - 1]).value, acts[|acts| - 1]);
    }
  }

  // ----- Monotonicity and closing -----

  /** An accepted bid beats the standing bid. */
  lemma RaiseBeatsStanding(rule: OpenerRule, s: State, a: Action)
    requires Transition(rule, s, a).Ok? && a.MakeBid? && s.highest.Some?
    ensures Transition(rule, s, a).value.highest.Some?
    ensures Transition(rule, s, a).value.highest.value.value > s.highest.value.value
  {
  }

  /** Over any run the standing bid never goes away and never goes down. */
  lemma {:induction false} RunNeverLowers(rule: OpenerRule, s: State, acts: seq<Action>)
    requires Run(rule, s, acts).Ok? && s.highest.Some?
    ensures Run(rule, s, acts).value.highest.Some?
    ensures Run(rule, s, acts).value.highest.value.value >= s.highest.value.value
  {
    if |acts| > 0 {
      RunNeverLowers(rule, s, acts[..|acts| - 1]);
    }
  }

  /** A finished auction rejects whatever comes next. */
  lemma {:induction false} FinishedRejectsEverything(rule: OpenerRule, s: State, acts: seq<Action>)
    requires s.finished && |acts| > 0
    ensures Run(rule, s, acts) == Err(AlreadyFinished)
  {
    if |acts| > 1 {
      FinishedRejectsEverything(rule, s, acts[..|acts| - 1]);
    }
  }

  // ----- A full round of passes after a bid -----

  /** A seat not in `order` is not a non-passer; a seat of `order` is one
      exactly when it has not passed. */
  lemma {:induction false} NonPassersMembers(order: seq<int>, passed: set<int>, q: int)
    ensures q in NonPassers(order, passed) <==> q in order && q !in passed
  {
    if |order| > 0 {
      NonPassersMembers(order[1..], passed, q);
      assert q in order <==> q == order[0] || q in order[1..] by {
        assert order == [order[0]] + order[1..];
      }
    }
  }

  /** When `p` is the only seat of a duplicate-free rotation that has not
      passed, the non-passers are exactly [p]. */
  lemma {:induction false} NonPassersOnly(order: seq<int>, passed: set<int>, p: int)
    requires Distinct(order) && p in order && p !in passed
    requires forall q :: q in order && q != p ==> q in passed
    ensures NonPassers(order, passed) == [p]
  {
    var rest := order[1..];
    assert Distinct(rest) by {
      forall i, j | 0 <= i < j < |rest|
        ensures rest[i] != rest[j]
      {
        assert rest[i] == order[i + 1] && rest[j] == order[j + 1];
      }
    }
    if order[0] == p {
      assert p !in rest by {
        forall i | 0 <= i < |rest|
          ensures rest[i] != p
        {
          assert rest[i] == order[i + 1];
        }
      }
      var np := NonPassers(rest, passed);
      if |np| > 0 {
        NonPassersMembers(rest, passed, np[0]);
      }
    } else {
      assert p in rest by {
        var i :| 0 <= i < |order| && order[i] == p;
        assert rest[i - 1] == p;
      }
      NonPassersOnly(rest, passed, p);
    }
  }

  /** The passes that follow a bid by the seat at rotation index t: seat
      (t + 1) mod n, then (t + 2) mod n, and so on, k of them. */
  function PassesAfter(order: seq<int>, t: int, k: nat): (acts: seq<Action>)
    requires |order| > 0
    ensures |acts| == k
  {
    if k == 0 then [] else PassesAfter(order, t, k - 1) + [Pass(order[(t + k) % |order|])]
  }

  /** The seats recorded as passed after those k passes. */
  function PassedAfter(order: seq<int>, t: int, k: nat): set<int>
    requires |order| > 0
  {
    if k == 0 then {} else PassedAfter(order, t, k - 1) + {order[(t + k) % |order|]}
  }

  lemma {:induction false} InPassedAfter(order: seq<int>, t: int, k: nat, j: int)
    requires |order| > 0 && 1 <= j <= k
    ensures order[(t + j) % |order|] in PassedAfter(order, t, k)
  {
    if j < k {
      InPassedAfter(order, t, k - 1, j);
    }
  }

  /** The seat x places after t has not yet passed when only k < x seats
      have, provided x <= n. */
  lemma {:induction false} NotYetPassed(order: seq<int>, t: int, k: nat, x: int)
    requires Distinct(order) && |order| > 0 && k < x <= |order|
    ensures order[(t + x) % |order|] !in PassedAfter(order, t, k)
  {
    var n := |order|;
    if k > 0 {
      NotYetPassed(order, t, k - 1, x);
      if (t + k) % n == (t + x) % n {
        ModInjective(t + k, t + x, n);
      }
    }
  }

  /** Once the n - 1 seats after index t have passed, every seat other than
      the one at t has passed. */
  lemma OthersAllPassed(order: seq<int>, t: int, i: int)
    requires |order| > 0 && 0 <= t < |order| && 0 <= i < |order| && i != t
    ensures order[i] in PassedAfter(order, t, |order| - 1)
  {
    var n := |order|;
    var j := if i > t then i - t else i - t + n;
    if i > t {
      DivModUnique(i, n, 0, i);
    } else {
      DivModUnique(i + n, n, 1, i);
    }
    assert (t + j) % n == i;
    InPassedAfter(order, t, n - 1, j);
  }

  /** The seat at index t is never among the passers of its own round. */
  lemma BidderNotPassed(order: seq<int>, t: int, k: nat)
    requires Distinct(order) && 0 <= t < |order| && k < |order|
    ensures order[t] !in PassedAfter(order, t, k)
  {
    var n := |order|;
    DivModUnique(t + n, n, 1, t);
    NotYetPassed(order, t, k, n);
  }

  /** Before the last pass of the round, the next seat is a non-passer other
      than the bidder. */
  lemma NextStillIn(order: seq<int>, t: int, k: nat)
    requires Distinct(order) && 0 <= t < |order| && k < |order| - 1
    ensures order[(t + k + 1) % |order|] != order[t]
    ensures order[(t + k + 1) % |order|] in NonPassers(order, PassedAfter(order, t, k))
  {
    var n := |order|;
    var q := order[(t + k + 1) % n];
    NotYetPassed(order, t, k, k + 1);
    NonPassersMembers(order, PassedAfter(order, t, k), q);
    if q == order[t] {
      DivModBasics(t + k + 1, n);
      DivModUnique(t, n, 0, t);
      ModInjective(t, t + k + 1, n);
    }
  }

  /** After k passes following a bid at index t, the bidder is the only
      non-passer exactly when k = n - 1. */
  lemma ClosesAfterAllOthers(order: seq<int>, t: int, k: nat)
    requires Distinct(order) && 0 <= t < |order| && k < |order|
    ensures NonPassers(order, PassedAfter(order, t, k)) == [order[t]] <==> k == |order| - 1
  {
    var n := |order|;
    var passed := PassedAfter(order, t, k);
    if k == n - 1 {
      forall q | q in order && q != order[t]
        ensures q in passed
      {
        var i :| 0 <= i < n && order[i] == q;
        OthersAllPassed(order, t, i);
      }
      BidderNotPassed(order, t, k);
      NonPassersOnly(order, passed, order[t]);
    } else {
      NextStillIn(order, t, k);
    }
  }

  /** The state after the k passes that follow a bid at rotation index t. */
  function AfterPasses(s: State, t: int, k: nat): State
    requires |s.order| > 0
  {
    s.(passed := PassedAfter(s.order, t, k), turn := (t + 1 + k) % |s.order|, finished := k == |s.order| - 1)
  }

  /** One more pass in the round passes every check. */
  lemma PassAccepted(rule: OpenerRule, s: State, t: int, k: nat)
    requires |s.order| > 0 && s.highest.Some? && 0 <= t < |s.order| && 0 < k < |s.order|
    requires PassesUnblocked(rule, s, t, k)
    ensures Transition(rule, AfterPasses(s, t, k - 1), Pass(s.order[(t + k) % |s.order|]))
         == Ok(Accept(AfterPasses(s, t, k - 1), Pass(s.order[(t + k) % |s.order|])))
  {
    var n := |s.order|;
    var u := AfterPasses(s, t, k - 1);
    var seat := (t + k) % n;
    DivModBasics(t + k, n);
    assert u.turn == seat;
    assert IsTurnOf(u, s.order[seat]);
    assert !OpenerBlocks(rule, u, Pass(s.order[seat])) by {
      if rule == AtTurnZero && t + k < n {
        DivModUnique(t + k, n, 0, t + k);
      }
    }
  }

  /** ... and leads to the next state of the round. */
  lemma PassRecorded(s: State, t: int, k: nat)
    requires Distinct(s.order) && s.highest.Some? && 0 <= t < |s.order| && s.order[t] == s.highest.value.player
    requires 0 < k < |s.order|
    ensures Accept(AfterPasses(s, t, k - 1), Pass(s.order[(t + k) % |s.order|])) == AfterPasses(s, t, k)
  {
    var n := |s.order|;
    var x := t + k;
    DivModBasics(x, n);
    var v := Accept(AfterPasses(s, t, k - 1), Pass(s.order[x % n]));
    assert v.passed == PassedAfter(s.order, t, k);
    assert v.turn == (t + 1 + k) % n by {
      assert v.turn == (x % n + 1) % n;
      ModSucc(x, n);
      assert t + 1 + k == x + 1;
    }
    ClosesAfterAllOthers(s.order, t, k);
  }

  /** `s` is the state right after a bid by the seat at rotation index t. */
  predicate RoundReady(s: State, t: int)
  {
    && Valid(s) && Distinct(s.order)
    && s.highest.Some? && 0 <= t < |s.order| && s.order[t] == s.highest.value.player
    && s.passed == {} && s.turn == (t + 1) % |s.order|
  }

  /** The forced-opener rule rejects none of the first k passes after a bid
      at index t: under the rule as written, the seat at index 0 is the
      forced opener and none of those passes falls on index 0. */
  predicate PassesUnblocked(rule: OpenerRule, s: State, t: int, k: int)
  {
    rule == AtTurnZero && |s.order| > 0 ==> s.forcedOpener != Some(s.order[0]) || t == 0 || t + k < |s.order|
  }

  /** Before any pass, the state right after the bid is the start of the
      round: the auction is closed already only at a one-seat table. */
  lemma RoundStart(s: State, t: int)
    requires Valid(s) && Distinct(s.order)
    requires s.highest.Some? && 0 <= t < |s.order| && s.order[t] == s.highest.value.player
    requires s.passed == {} && s.turn == (t + 1) % |s.order|
    ensures s == AfterPasses(s, t, 0)
  {
    ClosesAfterAllOthers(s.order, t, 0);
  }

  /** Right after a bid by the seat at index t, the other seats passing in
      turn are all accepted; the auction stays open until the last of them
      and closes with that pass. */
  lemma {:induction false} PassRound(rule: OpenerRule, s: State, t: int, k: nat)
    requires RoundReady(s, t) && k < |s.order| && PassesUnblocked(rule, s, t, k)
    ensures Run(rule, s, PassesAfter(s.order, t, k)) == Ok(AfterPasses(s, t, k))
  {
    if k == 0 {
      RoundStart(s, t);
    } else {
      RunSnoc(rule, s, PassesAfter(s.order, t, k - 1), Pass(s.order[(t + k) % |s.order|]));
      PassRound(rule, s, t, k - 1);
      PassAccepted(rule, s, t, k);
      PassRecorded(s, t, k);
    }
  }

  /** Whoever speaks may bid a legal value, and if every other seat then
      passes in turn the auction closes with that bid standing. */
  lemma BidThenOthersPass(rule: OpenerRule, s: State, value: int)
    requires Valid(s) && Distinct(s.order) && !s.finished && LegalValue(s, value)
    requires rule == AtTurnZero ==> s.turn == 0 || s.forcedOpener != Some(s.order[0])
    ensures Transition(rule, s, MakeBid(s.order[s.turn], value)).Ok?
    ensures var r := Run(rule, Transition(rule, s, MakeBid(s.order[s.turn], value)).value,
                         PassesAfter(s.order, s.turn, |s.order| - 1));
            r.Ok? && r.value.finished && r.value.highest == Some(Bid(s.order[s.turn], value))
  {
    var a := MakeBid(s.order[s.turn], value);
    BidStartsRound(rule, s, value);
    var s1 := Transition(rule, s, a).value;
    assert s1.highest == Some(Bid(s.order[s.turn], value));
    var k := |s.order| - 1;
    assert s1.order == s.order;
    var u := AfterPasses(s1, s.turn, k);
    assert u.finished && u.highest == s1.highest;
    assert Run(rule, s1, PassesAfter(s.order, s.turn, k)) == Ok(u) by {
      PassRound(rule, s1, s.turn, k);
    }
  }

  /** An accepted bid puts the auction at the start of a round of passes. */
  lemma BidStartsRound(rule: OpenerRule, s: State, value: int)
    requires Valid(s) && Distinct(s.order) && !s.finished && LegalValue(s, value)
    ensures Transition(rule, s, MakeBid(s.order[s.turn], value)).Ok?
    ensures RoundReady(Transition(rule, s, MakeBid(s.order[s.turn], value)).value, s.turn)
  {
    var a := MakeBid(s.order[s.turn], value);
    assert IsTurnOf(s, a.player) && !OpenerBlocks(rule, s, a);
    TransitionKeepsValid(rule, s, a);
  }

  // ----- The forced-opener rule as written -----

  /** The forced opener is the first seat of the rotation and has not passed. */
  predicate OpenerHeld(s: State)
  {
    |s.order| > 0 && s.forcedOpener == Some(s.order[0]) && s.order[0] !in s.passed
  }

  /** As written, the forced opener speaks at index 0 of every round, so its
      pass is always rejected and it never joins the passed set. */
  lemma AsWrittenOpenerNeverPasses(s: State, a: Action)
    requires Distinct(s.order) && OpenerHeld(s) && ApplyBid(s, a).Ok?
    ensures ApplyBid(s, a).value.order == s.order
    ensures OpenerHeld(ApplyBid(s, a).value)
  {
    if a.Pass? {
      assert s.turn != 0;
    }
  }

  lemma {:induction false} AsWrittenRunOpenerNeverPasses(s: State, acts: seq<Action>)
    requires Distinct(s.order) && OpenerHeld(s) && Run(AtTurnZero, s, acts).Ok?
    ensures Run(AtTurnZero, s, acts).value.order == s.order
    ensures OpenerHeld(Run(AtTurnZero, s, acts).value)
  {
    if |acts| > 0 {
      var init := acts[..|acts| - 1];
      AsWrittenRunOpenerNeverPasses(s, init);
      AsWrittenOpenerNeverPasses(Run(AtTurnZero, s, init).value, acts[|acts| - 1]);
    }
  }

  /** A set whose members all occur in `s` has at most |s| members. */
  lemma {:induction false} SubsetOfSeqSize(passed: set<int>, s: seq<int>)
    requires forall p :: p in passed ==> p in s
    ensures |passed| <= |s|
  {
    if |s| > 0 {
      var rest := passed - {s[0]};
      forall p | p in rest
        ensures p in s[1..]
      {
        var i :| 0 <= i < |s| && s[i] == p;
        assert s[1..][i - 1] == p;
      }
      SubsetOfSeqSize(rest, s[1..]);
    } else {
      assert forall p :: p !in passed;
      assert passed == {};
    }
  }

  /** As written, a closed auction whose forced opener never passed was won
      by the forced opener: nobody else can ever be the standing bidder
      when the auction closes. */
  lemma AsWrittenOpenerWinsClosed(s: State)
    requires Valid(s) && OpenerHeld(s) && s.finished
    ensures s.highest.Some? && s.highest.value.player == s.order[0]
  {
    if s.highest.None? {
      SubsetOfSeqSize(s.passed, s.order[1..]) by {
        forall p | p in s.passed
          ensures p in s.order[1..]
        {
          var i :| 0 <= i < |s.order| && s.order[i] == p;
          assert s.order[1..][i - 1] == p;
        }
      }
    } else {
      NonPassersMembers(s.order, s.passed, s.order[0]);
    }
  }

  /** The defect: as written, whenever bidding1 is opened with the dealer as
      forced opener, every auction that closes is won by the dealer. */
  lemma AsWrittenDealerAlwaysWins(n: int, dealer: int, acts: seq<Action>)
    requires 0 <= dealer < n
    ensures var r := Run(AtTurnZero, Create(n, dealer, Bidding1, Some(dealer)), acts);
            r.Ok? && r.value.finished ==> r.value.highest.Some? && r.value.highest.value.player == dealer
  {
    var s0 := Create(n, dealer, Bidding1, Some(dealer));
    SeatOrderIsRotation(n, dealer);
    DivModUnique(dealer, n, 0, dealer);
    CreateValid(n, dealer, Bidding1, Some(dealer));
    var r := Run(AtTurnZero, s0, acts);
    if r.Ok? {
      AsWrittenRunOpenerNeverPasses(s0, acts);
      RunKeepsValid(AtTurnZero, s0, acts);
      if r.value.finished {
        AsWrittenOpenerWinsClosed(r.value);
      }
    }
  }

  // ----- Worked auctions at a four-seat table, dealer at seat 0 -----

  lemma FourSeatOrder()
    ensures SeatOrder(4, 0) == [0, 1, 2, 3]
  {
    var order := SeatOrder(4, 0);
    assert forall i :: 0 <= i < 4 ==> order[i] == JsRem(i, 4);
    assert JsRem(0, 4) == 0 && JsRem(1, 4) == 1 && JsRem(2, 4) == 2 && JsRem(3, 4) == 3;
    assert order[0] == 0 && order[1] == 1 && order[2] == 2 && order[3] == 3;
  }

  /** The dealer may not pass first; after the dealer opens at 14 and the
      other three pass, the auction is closed with 14 standing for the dealer. */
  lemma DealerMustOpen()
    ensures ApplyBid(Create(4, 0, Bidding1, Some(0)), Pass(0)) == Err(OpenerCannotPass)
    ensures var r := Run(AtTurnZero, Create(4, 0, Bidding1, Some(0)),
                         [MakeBid(0, 14)] + [Pass(1), Pass(2), Pass(3)]);
            r.Ok? && r.value.finished && r.value.highest == Some(Bid(0, 14))
  {
    FourSeatOrder();
    var s0 := Create(4, 0, Bidding1, Some(0));
    CreateValid(4, 0, Bidding1, Some(0));
    SeatOrderIsRotation(4, 0);
    BidThenOthersPass(AtTurnZero, s0, 14);
    assert PassesAfter(s0.order, 0, 3) == [Pass(1), Pass(2), Pass(3)];
    RunSnoc(AtTurnZero, s0, [], MakeBid(0, 14));
    RunAppend(AtTurnZero, s0, [MakeBid(0, 14)], [Pass(1), Pass(2), Pass(3)]);
  }

  /** The dealer opens at 14 and seat 1 raises to 15: a round of passes
      after seat 1's bid is about to start, under either rule. */
  lemma DealerOutbid(rule: OpenerRule)
    ensures var r := Run(rule, Create(4, 0, Bidding1, Some(0)), [MakeBid(0, 14)] + [MakeBid(1, 15)]);
            && r.Ok? && RoundReady(r.value, 1) && r.value.highest == Some(Bid(1, 15))
            && r.value.order == [0, 1, 2, 3] && r.value.forcedOpener == Some(0)
  {
    FourSeatOrder();
    var s0 := Create(4, 0, Bidding1, Some(0));
    CreateValid(4, 0, Bidding1, Some(0));
    SeatOrderIsRotation(4, 0);
    BidStartsRound(rule, s0, 14);
    var s1 := Transition(rule, s0, MakeBid(0, 14)).value;
    RoundStart(s1, 0);
    assert s1.turn == 1;
    BidStartsRound(rule, s1, 15);
    RunSnoc(rule, s0, [], MakeBid(0, 14));
    RunSnoc(rule, s0, [MakeBid(0, 14)], MakeBid(1, 15));
  }

  /** After the dealer's 14, seat 1's 15 and passes from seats 2 and 3, the
      turn is back at index 0, the dealer's, and the auction is still open. */
  lemma TwoPassesAfterOutbid(rule: OpenerRule)
    ensures var r := Run(rule, Create(4, 0, Bidding1, Some(0)),
                         [MakeBid(0, 14)] + [MakeBid(1, 15)] + [Pass(2), Pass(3)]);
            && r.Ok? && r.value.turn == 0 && !r.value.finished
            && r.value.order == [0, 1, 2, 3] && r.value.forcedOpener == Some(0)
  {
    var bids := [MakeBid(0, 14)] + [MakeBid(1, 15)];
    var s0 := Create(4, 0, Bidding1, Some(0));
    DealerOutbid(rule);
    var s2 := Run(rule, s0, bids).value;
    var ps := PassesAfter(s2.order, 1, 2);
    var u := AfterPasses(s2, 1, 2);
    SecondAndThirdPass(s2);
    assert Run(rule, s2, ps) == Ok(u) by {
      PassRound(rule, s2, 1, 2);
    }
    RunAppend(rule, s0, bids, ps);
  }

  /** At a four-seat table in natural order, the passes following a bid at
      index 1 come from seats 2 and 3 and hand the turn back to index 0. */
  lemma SecondAndThirdPass(s: State)
    requires s.order == [0, 1, 2, 3]
    ensures PassesAfter(s.order, 1, 2) == [Pass(2), Pass(3)]
    ensures var u := AfterPasses(s, 1, 2);
            u.turn == 0 && !u.finished && u.order == s.order && u.forcedOpener == s.forcedOpener
  {
    PassesAfterTwo(s.order, 1);
  }

  lemma PassesAfterTwo(order: seq<int>, t: int)
    requires |order| > 0
    ensures PassesAfter(order, t, 2)
         == [Pass(order[(t + 1) % |order|]), Pass(order[(t + 2) % |order|])]
  {
    assert PassesAfter(order, t, 1) == [Pass(order[(t + 1) % |order|])];
  }

  /** The defect at work: after seat 1 outbids the dealer and seats 2 and 3
      pass, the turn is back at index 0 and, as written, the dealer's pass
      is rejected, so seat 1's bid cannot close the auction. */
  lemma AsWrittenDealerCannotConcede()
    ensures Run(AtTurnZero, Create(4, 0, Bidding1, Some(0)),
                [MakeBid(0, 14)] + [MakeBid(1, 15)] + [Pass(2), Pass(3)] + [Pass(0)])
         == Err(OpenerCannotPass)
  {
    var acts := [MakeBid(0, 14)] + [MakeBid(1, 15)] + [Pass(2), Pass(3)];
    var s0 := Create(4, 0, Bidding1, Some(0));
    TwoPassesAfterOutbid(AtTurnZero);
    var u := Run(AtTurnZero, s0, acts).value;
    assert Transition(AtTurnZero, u, Pass(0)) == Err(OpenerCannotPass);
    RunSnoc(AtTurnZero, s0, acts, Pass(0));
  }

  /** With the rule as documented the same auction goes on: the dealer
      passes and seat 1's 15 closes it. */
  lemma FirstTurnRuleLetsDealerConcede()
    ensures var r := Run(OnFirstTurnOnly, Create(4, 0, Bidding1, Some(0)),
                         [MakeBid(0, 14)] + [MakeBid(1, 15)] + [Pass(2), Pass(3), Pass(0)]);
            r.Ok? && r.value.finished && r.value.highest == Some(Bid(1, 15))
  {
    var bids := [MakeBid(0, 14)] + [MakeBid(1, 15)];
    var s0 := Create(4, 0, Bidding1, Some(0));
    DealerOutbid(OnFirstTurnOnly);
    var s2 := Run(OnFirstTurnOnly, s0, bids).value;
    var ps := PassesAfter(s2.order, 1, 3);
    var u := AfterPasses(s2, 1, 3);
    AllThreePass(s2);
    assert Run(OnFirstTurnOnly, s2, ps) == Ok(u) by {
      PassRound(OnFirstTurnOnly, s2, 1, 3);
    }
    RunAppend(OnFirstTurnOnly, s0, bids, ps);
  }

  /** At a four-seat table in natural order, the three passes following a bid
      at index 1 come from seats 2, 3 and 0 and close the auction. */
  lemma AllThreePass(s: State)
    requires s.order == [0, 1, 2, 3]
    ensures PassesAfter(s.order, 1, 3) == [Pass(2), Pass(3), Pass(0)]
    ensures AfterPasses(s, 1, 3).finished && AfterPasses(s, 1, 3).highest == s.highest
  {
    SecondAndThirdPass(s);
    assert [Pass(2), Pass(3)] + [Pass(0)] == [Pass(2), Pass(3), Pass(0)];
  }
}

/** The expected value of a blackjack hand as the action calculator
    computes it, stated over the shoe's per-value counts with real-valued
    odds. `vc[i]` is the number of cards of the value with index `i`. */
module EV {
  import opened Cards
  import opened Options
  import opened Seqs
  import opened Hand
  import opened Rules

  /** The dealer's final score against the player's, for a player who has
      not busted. */
  function Payoff(dealerScore: nat, playerScore: nat): (p: real)
    ensures p == 1.0 || p == -1.0 || p == 0.0
  {
    if dealerScore > 21 then 1.0
    else if dealerScore > playerScore then -1.0
    else if dealerScore < playerScore then 1.0
    else 0.0
  }

  /** A dealer bust or a lower dealer score wins the bet, a higher dealer
      score loses it, equal scores push. */
  lemma PayoffMeaning(dealerScore: nat, playerScore: nat)
    requires playerScore <= 21
    ensures Payoff(dealerScore, playerScore) == 1.0 <==> dealerScore > 21 || dealerScore < playerScore
    ensures Payoff(dealerScore, playerScore) == -1.0 <==> playerScore < dealerScore <= 21
    ensures Payoff(dealerScore, playerScore) == 0.0 <==> dealerScore == playerScore
  {
  }

  /** What a hand built from real cards satisfies: at most one ace per
      card, and a base between "every ace and every other card a two" and
      "every other card a ten". */
  predicate Dealt(h: HandStats) {
    h.aces <= h.len
    && h.aces + 2 * (h.len - h.aces) <= h.base <= h.aces + 10 * (h.len - h.aces)
  }

  lemma {:induction false} StatsOfDealt(cards: seq<Card>, k: nat)
    requires AllRanks(cards)
    ensures Dealt(StatsOf(cards, k))
  {
    if cards != [] {
      assert AllRanks(cards[1..]) by {
        forall i | 0 <= i < |cards[1..]| ensures cards[1..][i].v.IsRank() {
          assert cards[1..][i] == cards[i + 1];
        }
      }
      StatsOfDealt(cards[1..], k);
    }
  }

  lemma DealtAdd(h: HandStats, v: Value)
    requires Dealt(h) && v.IsRank()
    ensures Dealt(h.Add(v))
  {
  }

  /** How far the player's base is below 21: each hit lowers it. */
  function PlayerRoom(h: HandStats): nat {
    if h.base < 21 then 21 - h.base else 0
  }

  /** How far the dealer's base is below 17: each draw lowers it. */
  function DealerRoom(h: HandStats): nat {
    if h.base < 17 then 17 - h.base else 0
  }

  function Odds(count: nat, of: int): real
    requires of > 0
  {
    count as real / of as real
  }

  /** An outcome's value times its odds. Kept as a function of its own so
      that the solver matches products by their factors. */
  function Weighted(odds: real, ev: real): real {
    odds * ev
  }

  /** `number_of_valid_cards`: the cards the dealer's next card can be. On
      the dealer's second card, unless a dealer blackjack is played out
      after the hand, a ten-valued up card excludes the aces and an ace
      excludes the ten-valued cards. */
  function ValidCards(r: BJRules, vc: seq<nat>, dh: HandStats): int
    requires |vc| == 13
  {
    if r.DealerBlackjackAfterHand() || dh.len != 1 then Sum(vc)
    else if dh.Score() == 10 then Sum(vc) - vc[ACE.Index()]
    else if dh.Score() == 11 then
      Sum(vc) - vc[TEN.Index()] - vc[JACK.Index()] - vc[QUEEN.Index()] - vc[KING.Index()]
    else Sum(vc)
  }

  /** The subtractions in `number_of_valid_cards` never go below zero: the
      aces, and the four ten-valued counts together, lie inside the total. */
  lemma ValidCardsNonNegative(r: BJRules, vc: seq<nat>, dh: HandStats)
    requires |vc| == 13
    ensures 0 <= ValidCards(r, vc, dh) <= Sum(vc)
  {
    SumElement(vc, ACE.Index());
    // Zero the four ten-valued counts one at a time: what is left is a
    // sum of naturals, so the total covers the four together.
    SumUpdate(vc, 9, 0);
    SumUpdate(vc[9 := 0], 10, 0);
    SumUpdate(vc[9 := 0][10 := 0], 11, 0);
    SumUpdate(vc[9 := 0][10 := 0][11 := 0], 12, 0);
    assert TEN.Index() == 9 && JACK.Index() == 10 && QUEEN.Index() == 11 && KING.Index() == 12;
  }

  /** Which second cards give an unsplit one-card dealer hand a blackjack:
      an ace under a ten-valued card, a ten-valued card under an ace. */
  lemma CompletesBlackjack(r: BJRules, dh: HandStats, v: Value)
    requires Dealt(dh) && dh.splitNumber == 0 && dh.len == 1 && v.IsRank()
    ensures r.IsBlackjack(dh.Add(v)) <==>
      (dh.Score() == 10 && v == ACE) || (dh.Score() == 11 && v.Index() >= TEN.Index())
  {
    ScoreByIndex(v);
  }

  /** Every draw that is counted has a positive denominator: it is one of
      the valid cards. */
  lemma ValidCardsCover(r: BJRules, vc: seq<nat>, dh: HandStats, k: nat)
    requires |vc| == 13 && k < 13 && vc[k] > 0
    requires Dealt(dh) && dh.splitNumber == 0
    requires !(r.IsBlackjack(dh.Add(ValueAt(k))) && !r.DealerBlackjackAfterHand())
    ensures ValidCards(r, vc, dh) >= vc[k] > 0
  {
    SumElement(vc, k);
    if dh.len == 1 && !r.DealerBlackjackAfterHand() {
      CompletesBlackjack(r, dh, ValueAt(k));
      if dh.Score() == 10 {
        WithoutAces(vc, k);
      } else if dh.Score() == 11 {
        WithoutTens(vc, k);
      }
    }
  }

  /** A value other than the ace lies within the cards that are not aces. */
  lemma WithoutAces(vc: seq<nat>, k: nat)
    requires |vc| == 13 && 0 < k < 13
    ensures Sum(vc) - vc[0] >= vc[k]
  {
    SumUpdate(vc, 0, 0);
    SumElement(vc[0 := 0], k);
  }

  /** A value below ten lies within the cards that are not ten-valued. */
  lemma WithoutTens(vc: seq<nat>, k: nat)
    requires |vc| == 13 && k < 9
    ensures Sum(vc) - vc[9] - vc[10] - vc[11] - vc[12] >= vc[k]
  {
    var wo := vc[9 := 0][10 := 0][11 := 0][12 := 0];
    SumUpdate(vc, 9, 0);
    SumUpdate(vc[9 := 0], 10, 0);
    SumUpdate(vc[9 := 0][10 := 0], 11, 0);
    SumUpdate(vc[9 := 0][10 := 0][11 := 0], 12, 0);
    assert wo[k] == vc[k];
    SumElement(wo, k);
  }

  // The dealer's play, once the player stands with `p`.

  /** `expected_with_dealer`: the dealer stands and is paid off, or draws
      each value still in the shoe with its odds. */
  function DealerEV(r: BJRules, vc: seq<nat>, p: HandStats, dh: HandStats): Option<real>
    requires |vc| == 13 && p.Score() <= 21 && Dealt(dh) && dh.splitNumber == 0
    decreases DealerRoom(dh), 2, 0
  {
    if !r.ShouldHitDealerHand(dh) then Some(Payoff(dh.Score(), p.Score()))
    else DealerPrefix(r, vc, p, dh, 13)
  }

  /** Whether a dealer draw of value `k` enters the sum: the shoe must hold
      one, and it must not complete a dealer blackjack that ends the hand. */
  predicate Counted(r: BJRules, vc: seq<nat>, dh: HandStats, k: nat)
    requires |vc| == 13 && k < 13
  {
    vc[k] > 0 && !(r.IsBlackjack(dh.Add(ValueAt(k))) && !r.DealerBlackjackAfterHand())
  }

  /** The sum of two values that may be missing; missing when either is. */
  function Plus(a: Option<real>, b: Option<real>): (s: Option<real>)
    ensures s.Some? <==> a.Some? && b.Some?
  {
    if a.Some? && b.Some? then Some(a.value + b.value) else None
  }

  /** The dealer's draws over the first `k` values: a draw that is not
      counted adds nothing; a counted draw whose value is None makes the
      whole sum None. */
  function DealerPrefix(r: BJRules, vc: seq<nat>, p: HandStats, dh: HandStats, k: nat): Option<real>
    requires |vc| == 13 && p.Score() <= 21 && Dealt(dh) && dh.splitNumber == 0
    requires r.ShouldHitDealerHand(dh) && k <= 13
    decreases DealerRoom(dh), 1, k
  {
    if k == 0 then Some(0.0)
    else if !Counted(r, vc, dh, k - 1) then DealerPrefix(r, vc, p, dh, k - 1)
    else Plus(DealerPrefix(r, vc, p, dh, k - 1), DealerTerm(r, vc, p, dh, k - 1))
  }

  /** One counted dealer draw of value `k`: its odds among the valid cards
      times the value with that card dealt. */
  function DealerTerm(r: BJRules, vc: seq<nat>, p: HandStats, dh: HandStats, k: nat): Option<real>
    requires |vc| == 13 && p.Score() <= 21 && Dealt(dh) && dh.splitNumber == 0
    requires r.ShouldHitDealerHand(dh) && k < 13 && Counted(r, vc, dh, k)
    decreases DealerRoom(dh), 0, 0
  {
    DealtAdd(dh, ValueAt(k));
    ValidCardsCover(r, vc, dh, k);
    match DealerEV(r, vc[k := vc[k] - 1], p, dh.Add(ValueAt(k)))
    case None => None
    case Some(ev) => Some(Weighted(Odds(vc[k], ValidCards(r, vc, dh)), ev))
  }

  /** The dealer's play always has a value: the `None` paths of
      `expected_with_dealer` are never taken. */
  lemma {:induction false} DealerEVSome(r: BJRules, vc: seq<nat>, p: HandStats, dh: HandStats)
    requires |vc| == 13 && p.Score() <= 21 && Dealt(dh) && dh.splitNumber == 0
    ensures DealerEV(r, vc, p, dh).Some?
    decreases DealerRoom(dh), 2, 0
  {
    if r.ShouldHitDealerHand(dh) {
      DealerPrefixSome(r, vc, p, dh, 13);
    }
  }

  lemma {:induction false} DealerPrefixSome(r: BJRules, vc: seq<nat>, p: HandStats, dh: HandStats, k: nat)
    requires |vc| == 13 && p.Score() <= 21 && Dealt(dh) && dh.splitNumber == 0
    requires r.ShouldHitDealerHand(dh) && k <= 13
    ensures DealerPrefix(r, vc, p, dh, k).Some?
    decreases DealerRoom(dh), 1, k
  {
    if k > 0 {
      DealerPrefixSome(r, vc, p, dh, k - 1);
      if Counted(r, vc, dh, k - 1) {
        DealtAdd(dh, ValueAt(k - 1));
        DealerEVSome(r, vc[k - 1 := vc[k - 1] - 1], p, dh.Add(ValueAt(k - 1)));
      }
    }
  }

  /** A standing dealer's result is a whole bet won, lost or pushed. */
  lemma DealerStands(r: BJRules, vc: seq<nat>, p: HandStats, dh: HandStats)
    requires |vc| == 13 && p.Score() <= 21 && Dealt(dh) && dh.splitNumber == 0
    requires !r.ShouldHitDealerHand(dh)
    ensures DealerEV(r, vc, p, dh) == Some(1.0) || DealerEV(r, vc, p, dh) == Some(-1.0)
         || DealerEV(r, vc, p, dh) == Some(0.0)
    ensures dh.Score() > 21 ==> DealerEV(r, vc, p, dh) == Some(1.0)
  {
  }

  /** A second dealer card that makes a blackjack is left out of the sum:
      the prefix over it is the prefix before it. */
  lemma BlackjackDrawIgnored(r: BJRules, vc: seq<nat>, p: HandStats, dh: HandStats, k: nat)
    requires |vc| == 13 && p.Score() <= 21 && Dealt(dh) && dh.splitNumber == 0
    requires r.ShouldHitDealerHand(dh) && k < 13
    requires r.IsBlackjack(dh.Add(ValueAt(k)))
    ensures DealerPrefix(r, vc, p, dh, k + 1) == DealerPrefix(r, vc, p, dh, k)
  {
  }

  // The player's choices.

  /** `expected_value` for one action. */
  function ActionEV(r: BJRules, vc: seq<nat>, h: HandStats, up: Value, a: BJAction): Option<real>
    requires |vc| == 13 && up.IsRank() && (a == STAND ==> h.Score() <= 21)
    decreases PlayerRoom(h), 2, 0
  {
    match a
    case HIT => if !r.CanHit(h) then None else Some(HitPrefix(r, vc, h, up, 13))
    case STAND =>
      DealtAdd(EMPTY, up);
      DealerEV(r, vc, h, EMPTY.Add(up))
    case DOUBLE => if r.CanDouble(h) then Some(-1.0) else None
    case SPLIT => if r.CanSplit(h) then Some(-1.0) else None
    case SURRENDER => if r.CanSurrender(h) then Some(0.5) else None
  }

  /** Hitting, over the first `k` values: each value still in the shoe
      adds its odds times the best value with that card in hand. */
  function HitPrefix(r: BJRules, vc: seq<nat>, h: HandStats, up: Value, k: nat): real
    requires |vc| == 13 && up.IsRank() && r.CanHit(h) && k <= 13
    decreases PlayerRoom(h), 1, k
  {
    if k == 0 then 0.0
    else if vc[k - 1] == 0 then HitPrefix(r, vc, h, up, k - 1)
    else HitPrefix(r, vc, h, up, k - 1) + HitTerm(r, vc, h, up, k - 1)
  }

  function HitTerm(r: BJRules, vc: seq<nat>, h: HandStats, up: Value, k: nat): real
    requires |vc| == 13 && up.IsRank() && r.CanHit(h) && k < 13 && vc[k] > 0
    decreases PlayerRoom(h), 0, 0
  {
    SumElement(vc, k);
    Weighted(Odds(vc[k], Sum(vc)), BestEV(r, vc[k := vc[k] - 1], h.Add(ValueAt(k)), up))
  }

  /** `expected_value_best_action`: a bust loses the bet; otherwise the
      better of standing and (when allowed) hitting. */
  function BestEV(r: BJRules, vc: seq<nat>, h: HandStats, up: Value): real
    requires |vc| == 13 && up.IsRank()
    decreases PlayerRoom(h), 3, 0
  {
    if h.Score() > 21 then -1.0
    else
      DealtAdd(EMPTY, up);
      DealerEVSome(r, vc, h, EMPTY.Add(up));
      var stand := ActionEV(r, vc, h, up, STAND).value;
      match ActionEV(r, vc, h, up, HIT)
      case Some(x) => if stand < x then x else stand
      case None => stand
  }

  /** The best value is -1 on a bust and otherwise the maximum of the
      stand value, which always exists, and the hit value when hitting is
      allowed. */
  lemma BestIsMax(r: BJRules, vc: seq<nat>, h: HandStats, up: Value)
    requires |vc| == 13 && up.IsRank()
    ensures h.Score() > 21 ==> BestEV(r, vc, h, up) == -1.0
    ensures h.Score() <= 21 ==> ActionEV(r, vc, h, up, STAND).Some?
    ensures h.Score() <= 21 ==> BestEV(r, vc, h, up) >= ActionEV(r, vc, h, up, STAND).value
    ensures h.Score() <= 21 && r.CanHit(h) ==> BestEV(r, vc, h, up) >= ActionEV(r, vc, h, up, HIT).value
    ensures h.Score() <= 21 ==> (BestEV(r, vc, h, up) == ActionEV(r, vc, h, up, STAND).value
      || (r.CanHit(h) && BestEV(r, vc, h, up) == ActionEV(r, vc, h, up, HIT).value))
  {
    if h.Score() <= 21 {
      DealtAdd(EMPTY, up);
      DealerEVSome(r, vc, h, EMPTY.Add(up));
    }
  }

  /** Hitting is offered exactly below 21; doubling and splitting are
      placeholders worth a lost bet and surrender half a bet, whenever the
      rules allow them. */
  lemma OtherActions(r: BJRules, vc: seq<nat>, h: HandStats, up: Value)
    requires |vc| == 13 && up.IsRank()
    ensures ActionEV(r, vc, h, up, HIT).Some? <==> h.Score() < 21
    ensures ActionEV(r, vc, h, up, DOUBLE) == if h.len == 2 then Some(-1.0) else None
    ensures ActionEV(r, vc, h, up, SPLIT) == if h.splitNumber < 4 then Some(-1.0) else None
    ensures ActionEV(r, vc, h, up, SURRENDER) ==
      if r.canSurrender && h.len == 2 && h.splitNumber == 0 then Some(0.5) else None
  {
  }
}

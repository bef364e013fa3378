/** `ActionCalculatorImpl`: the depth-first expected-value search. Every
    branch takes a card from the shoe and gives it to a hand, recurses, then
    takes the card back from the hand and returns it to the shoe, so the
    shoe and the hands are as they were when each call returns. Each method
    computes the value its `EV` function defines over the shoe's per-value
    counts. */
module Calculator {
  import opened Cards
  import opened Options
  import opened Seqs
  import opened Hand
  import opened Rules
  import opened Shoe
  import opened RandomShoe
  import opened EV

  /** The shoe's per-value counts. */
  function Counts(t: Table): (vc: seq<nat>)
    requires WellFormed(t)
    ensures |vc| == 13 && Sum(vc) == Total(t)
  {
    RowSums(t)
  }

  lemma CountsOf(t: Table, v: Value)
    requires WellFormed(t) && v.IsRank()
    ensures Counts(t)[v.Index()] == CountOf(t, v) <= Total(t)
  {
    CountPositive(t, v);
  }

  /** Taking a card lowers its value's count by one. */
  lemma CountsTake(t: Table, c: Card)
    requires WellFormed(t) && c.v.IsRank() && Held(t, c) > 0
    ensures Counts(t)[c.v.Index()] > 0
    ensures Counts(Take(t, c)) == Counts(t)[c.v.Index() := Counts(t)[c.v.Index()] - 1]
  {
    var i := c.v.Index();
    var j := c.s.Index();
    SumElement(t[i], j);
    SumUpdate(t[i], j, t[i][j] - 1);
    RowSumsUpdate(t, i, t[i][j := t[i][j] - 1]);
  }

  /** `expected_value_best_action`. */
  method ExpectedValueBestAction(hand: BJHandImpl, up: Card, d: GenericDirectShoe, r: BJRules, suitDraw: nat)
    returns (res: real)
    requires hand.Valid() && d.Valid() && up.v.IsRank() && hand !in d.Repr
    modifies hand, d, d.Repr
    ensures hand.Valid() && d.Valid()
    ensures hand.cards == old(hand.cards) && hand.Stats() == old(hand.Stats())
    ensures d.table == old(d.table)
    ensures res == BestEV(r, Counts(old(d.table)), old(hand.Stats()), up.v)
    decreases PlayerRoom(hand.Stats()), 3, 0
  {
    if hand.Score() > 21 {
      return -1.0;
    }
    var actions := [HIT];
    var stand := ExpectedValue(hand, up, d, STAND, r, suitDraw);
    DealtAdd(EMPTY, up.v);
    DealerEVSome(r, Counts(d.table), hand.Stats(), EMPTY.Add(up.v));
    match stand
    case None =>
      assert false;
    case Some(s) =>
      var best := s;
      for i := 0 to |actions|
        invariant hand.Valid() && d.Valid()
        invariant hand.cards == old(hand.cards) && hand.Stats() == old(hand.Stats())
        invariant d.table == old(d.table)
        invariant i == 0 ==> best == s
        invariant i == 1 ==> best == BestEV(r, Counts(old(d.table)), old(hand.Stats()), up.v)
      {
        var ev := ExpectedValue(hand, up, d, actions[i], r, suitDraw);
        match ev
        case Some(x) =>
          if best < x {
            best := x;
          }
        case None =>
      }
      res := best;
  }

  /** `expected_value` for one action. */
  method ExpectedValue(hand: BJHandImpl, up: Card, d: GenericDirectShoe, action: BJAction, r: BJRules, suitDraw: nat)
    returns (res: Option<real>)
    requires hand.Valid() && d.Valid() && up.v.IsRank() && hand !in d.Repr
    requires action == STAND ==> hand.Score() <= 21
    modifies hand, d, d.Repr
    ensures hand.Valid() && d.Valid()
    ensures hand.cards == old(hand.cards) && hand.Stats() == old(hand.Stats())
    ensures d.table == old(d.table)
    ensures res == ActionEV(r, Counts(old(d.table)), old(hand.Stats()), up.v, action)
    decreases PlayerRoom(hand.Stats()), 2, 0
  {
    match action
    case HIT =>
      if !r.CanHit(hand.Stats()) {
        return None;
      }
      var finalResult := HitAll(hand, up, d, r, suitDraw);
      res := Some(finalResult);
    case STAND =>
      var dealerHand := new BJHandImpl();
      dealerHand.AddCard(up);
      res := ExpectedWithDealer(hand, dealerHand, d, r, suitDraw);
    case DOUBLE =>
      res := if r.CanDouble(hand.Stats()) then Some(-1.0) else None;
    case SPLIT =>
      res := if r.CanSplit(hand.Stats()) then Some(-1.0) else None;
    case SURRENDER =>
      res := if r.CanSurrender(hand.Stats()) then Some(0.5) else None;
  }

  /** The hit branch of `expected_value`: every value still in the shoe is
      drawn in turn, weighted by its share of the shoe. */
  method HitAll(hand: BJHandImpl, up: Card, d: GenericDirectShoe, r: BJRules, suitDraw: nat)
    returns (finalResult: real)
    requires hand.Valid() && d.Valid() && up.v.IsRank() && hand !in d.Repr
    requires r.CanHit(hand.Stats())
    modifies hand, d, d.Repr
    ensures hand.Valid() && d.Valid()
    ensures hand.cards == old(hand.cards) && hand.Stats() == old(hand.Stats())
    ensures d.table == old(d.table)
    ensures finalResult == HitPrefix(r, Counts(old(d.table)), old(hand.Stats()), up.v, 13)
    decreases PlayerRoom(hand.Stats()), 1, 2
  {
    ghost var vc := Counts(d.table);
    ghost var h := hand.Stats();
    finalResult := 0.0;
    for k := 0 to 13
      invariant hand.Valid() && d.Valid()
      invariant hand.cards == old(hand.cards) && hand.Stats() == h
      invariant d.table == old(d.table)
      invariant finalResult == HitPrefix(r, vc, h, up.v, k)
    {
      finalResult := HitValue(hand, up, d, r, suitDraw, k, finalResult);
    }
  }

  /** The `k`-th value's share of the hit branch added to the sum so far. */
  method HitValue(hand: BJHandImpl, up: Card, d: GenericDirectShoe, r: BJRules, suitDraw: nat, k: nat, sum: real)
    returns (next: real)
    requires hand.Valid() && d.Valid() && up.v.IsRank() && hand !in d.Repr
    requires r.CanHit(hand.Stats()) && k < 13
    requires sum == HitPrefix(r, Counts(d.table), hand.Stats(), up.v, k)
    modifies hand, d, d.Repr
    ensures hand.Valid() && d.Valid()
    ensures hand.cards == old(hand.cards) && hand.Stats() == old(hand.Stats())
    ensures d.table == old(d.table)
    ensures next == HitPrefix(r, Counts(old(d.table)), old(hand.Stats()), up.v, k + 1)
    decreases PlayerRoom(hand.Stats()), 1, 1
  {
    ghost var vc := Counts(d.table);
    ghost var h := hand.Stats();
    var v := VALUES[k];
    assert v == ValueAt(k);
    var countOfVal := d.Count(v);
    CountsOf(d.table, v);
    HitStep(r, vc, h, up.v, k);
    next := sum;
    if countOfVal > 0 {
      var oddsOfValue := countOfVal as real / d.Len() as real;
      ghost var vc' := vc[k := vc[k] - 1];
      assert Counts(d.table)[v.Index() := Counts(d.table)[v.Index()] - 1] == vc';
      var evWithValue := HitWith(hand, up, d, r, suitDraw, v);
      assert evWithValue == BestEV(r, vc', h.Add(ValueAt(k)), up.v);
      HitTaken(r, vc, h, up.v, k, oddsOfValue, evWithValue);
      next := sum + Weighted(oddsOfValue, evWithValue);
    }
  }

  /** One more value in the hit sum: nothing when none is left, otherwise
      its odds `o` times the best value `e` with it in hand. */
  lemma HitStep(r: BJRules, vc: seq<nat>, h: HandStats, up: Value, k: nat)
    requires |vc| == 13 && up.IsRank() && r.CanHit(h) && k < 13
    ensures vc[k] <= Sum(vc)
    ensures vc[k] == 0 ==> HitPrefix(r, vc, h, up, k + 1) == HitPrefix(r, vc, h, up, k)
  {
    SumElement(vc, k);
  }

  lemma HitTaken(r: BJRules, vc: seq<nat>, h: HandStats, up: Value, k: nat, o: real, e: real)
    requires |vc| == 13 && up.IsRank() && r.CanHit(h) && k < 13 && 0 < vc[k] <= Sum(vc)
    requires o == Odds(vc[k], Sum(vc)) && e == BestEV(r, vc[k := vc[k] - 1], h.Add(ValueAt(k)), up)
    ensures HitPrefix(r, vc, h, up, k + 1) == HitPrefix(r, vc, h, up, k) + Weighted(o, e)
  {
  }

  /** One hit: a card of value `v` goes from the shoe to the hand, the best
      value with it is computed, and the card goes back. */
  method HitWith(hand: BJHandImpl, up: Card, d: GenericDirectShoe, r: BJRules, suitDraw: nat, v: Value)
    returns (ev: real)
    requires hand.Valid() && d.Valid() && up.v.IsRank() && hand !in d.Repr
    requires r.CanHit(hand.Stats()) && v.IsRank() && CountOf(d.table, v) > 0
    modifies hand, d, d.Repr
    ensures hand.Valid() && d.Valid()
    ensures hand.cards == old(hand.cards) && hand.Stats() == old(hand.Stats())
    ensures d.table == old(d.table)
    ensures ev == BestEV(r, Counts(old(d.table))[v.Index() := Counts(old(d.table))[v.Index()] - 1],
                         old(hand.Stats()).Add(v), up.v)
    decreases PlayerRoom(hand.Stats()), 1, 0
  {
    var c := Deal(hand, d, v, suitDraw);
    ev := ExpectedValueBestAction(hand, up, d, r, suitDraw);
    Return(hand, d, c, old(hand.cards), old(hand.Stats()), old(d.table));
  }

  /** `d.remove(v)` and then `hand.addCard` of the card removed: a card of
      value `v` moves from the shoe to the hand. The shoe holds one, so the
      repository's "couldn't remove" failure cannot happen. */
  method Deal(hand: BJHandImpl, d: GenericDirectShoe, v: Value, suitDraw: nat) returns (c: Card)
    requires hand.Valid() && d.Valid() && hand !in d.Repr
    requires v.IsRank() && CountOf(d.table, v) > 0
    modifies hand, d, d.Repr
    ensures hand.Valid() && d.Valid()
    ensures c.v == v && Held(old(d.table), c) > 0 && d.table == Take(old(d.table), c)
    ensures Counts(d.table) == Counts(old(d.table))[v.Index() := Counts(old(d.table))[v.Index()] - 1]
    ensures hand.cards == old(hand.cards) + [c] && hand.Stats() == old(hand.Stats()).Add(v)
  {
    var cardFromDeck := d.Remove(v, suitDraw);
    match cardFromDeck
    case None =>
      assert false;
    case Some(card) =>
      c := card;
      CountsTake(old(d.table), c);
      hand.AddCard(c);
  }

  /** `hand.removeCard(c)` and then `d.insert(c)`: the card `Deal` moved
      goes back, and the hand and the shoe are as they were before it. */
  method Return(hand: BJHandImpl, d: GenericDirectShoe, c: Card,
                ghost cards: seq<Card>, ghost stats: HandStats, ghost table: Table)
    requires hand.Valid() && d.Valid() && hand !in d.Repr
    requires c.v.IsRank() && WellFormed(table) && Held(table, c) > 0 && d.table == Take(table, c)
    requires hand.cards == cards + [c] && hand.Stats() == stats.Add(c.v)
    modifies hand, d, d.Repr
    ensures hand.Valid() && d.Valid()
    ensures hand.cards == cards && hand.Stats() == stats && d.table == table
  {
    AddThenRemove(cards, c);
    var found := hand.RemoveCard(c);
    d.Insert(c);
    TakeFacts(table, c);
  }

  /** `expected_with_dealer`: the payoff once the dealer stands, otherwise
      the dealer's draws weighted by their odds among the valid cards. */
  method ExpectedWithDealer(player: BJHandImpl, dealer: BJHandImpl, d: GenericDirectShoe, r: BJRules, suitDraw: nat)
    returns (res: Option<real>)
    requires player.Valid() && dealer.Valid() && d.Valid()
    requires player.Score() <= 21 && dealer.splitNumber == 0
    requires player != dealer && player !in d.Repr && dealer !in d.Repr
    modifies dealer, d, d.Repr
    ensures dealer.Valid() && d.Valid()
    ensures dealer.cards == old(dealer.cards) && dealer.Stats() == old(dealer.Stats())
    ensures d.table == old(d.table)
    ensures Dealt(old(dealer.Stats()))
    ensures res == DealerEV(r, Counts(old(d.table)), old(player.Stats()), old(dealer.Stats()))
    decreases DealerRoom(dealer.Stats()), 2, 0
  {
    StatsOfDealt(dealer.cards, dealer.splitNumber);
    if !r.ShouldHitDealerHand(dealer.Stats()) {
      var dealerScore := dealer.Score();
      var playerScore := player.Score();
      if dealerScore > 21 {
        return Some(1.0);
      } else if dealerScore > playerScore {
        return Some(-1.0);
      } else if dealerScore < playerScore {
        return Some(1.0);
      } else {
        return Some(0.0);
      }
    }
    res := DealerDraws(player, dealer, d, r, suitDraw);
  }

  /** The drawing branch of `expected_with_dealer`: every value still in
      the shoe that does not end the hand in a dealer blackjack, weighted by
      its share of the valid cards. */
  method DealerDraws(player: BJHandImpl, dealer: BJHandImpl, d: GenericDirectShoe, r: BJRules, suitDraw: nat)
    returns (res: Option<real>)
    requires player.Valid() && dealer.Valid() && d.Valid()
    requires player.Score() <= 21 && dealer.splitNumber == 0 && Dealt(dealer.Stats())
    requires r.ShouldHitDealerHand(dealer.Stats())
    requires player != dealer && player !in d.Repr && dealer !in d.Repr
    modifies dealer, d, d.Repr
    ensures dealer.Valid() && d.Valid()
    ensures dealer.cards == old(dealer.cards) && dealer.Stats() == old(dealer.Stats())
    ensures d.table == old(d.table)
    ensures res == DealerPrefix(r, Counts(old(d.table)), old(player.Stats()), old(dealer.Stats()), 13)
    decreases DealerRoom(dealer.Stats()), 1, 0
  {
    var finalResult := 0.0;
    var numberOfValidCards := ValidCardsOf(dealer, d, r);
    ghost var vc := Counts(d.table);
    ghost var p := player.Stats();
    ghost var dh := dealer.Stats();
    for k := 0 to 13
      invariant dealer.Valid() && d.Valid()
      invariant dealer.cards == old(dealer.cards) && dealer.Stats() == dh
      invariant d.table == old(d.table)
      invariant DealerPrefix(r, vc, p, dh, k) == Some(finalResult)
    {
      var next := DealerDraw(player, dealer, d, r, suitDraw, k, numberOfValidCards, finalResult);
      match next
      case None =>
        DealerPrefixSome(r, vc, p, dh, k + 1);
        assert false;
      case Some(x) =>
        finalResult := x;
    }
    res := Some(finalResult);
  }

  /** One value of the dealer's loop: a value the shoe lacks adds nothing
      to `finalResult`; otherwise a card of it is drawn. */
  method DealerDraw(player: BJHandImpl, dealer: BJHandImpl, d: GenericDirectShoe, r: BJRules, suitDraw: nat,
                    k: nat, numberOfValidCards: int, finalResult: real)
    returns (next: Option<real>)
    requires player.Valid() && dealer.Valid() && d.Valid()
    requires player.Score() <= 21 && dealer.splitNumber == 0 && Dealt(dealer.Stats())
    requires r.ShouldHitDealerHand(dealer.Stats())
    requires player != dealer && player !in d.Repr && dealer !in d.Repr
    requires k < 13 && numberOfValidCards == ValidCards(r, Counts(d.table), dealer.Stats())
    requires DealerPrefix(r, Counts(d.table), player.Stats(), dealer.Stats(), k) == Some(finalResult)
    modifies dealer, d, d.Repr
    ensures dealer.Valid() && d.Valid()
    ensures dealer.cards == old(dealer.cards) && dealer.Stats() == old(dealer.Stats())
    ensures d.table == old(d.table)
    ensures next == DealerPrefix(r, Counts(old(d.table)), old(player.Stats()), old(dealer.Stats()), k + 1)
    decreases DealerRoom(dealer.Stats()), 0, 1
  {
    var v := VALUES[k];
    assert v == ValueAt(k);
    var countOfVal := d.Count(v);
    CountsOf(d.table, v);
    DealerStep(r, Counts(d.table), player.Stats(), dealer.Stats(), k);
    if countOfVal > 0 {
      next := DealerWith(player, dealer, d, r, suitDraw, k, countOfVal, numberOfValidCards, finalResult);
    } else {
      next := Some(finalResult);
    }
  }

  /** A draw of value `VALUES[k]`, which the shoe holds: the card goes to
      the dealer's hand; unless it completes a dealer blackjack the
      dealer's play goes on from there; then the card goes back. */
  method DealerWith(player: BJHandImpl, dealer: BJHandImpl, d: GenericDirectShoe, r: BJRules, suitDraw: nat,
                    k: nat, countOfVal: nat, numberOfValidCards: int, finalResult: real)
    returns (next: Option<real>)
    requires player.Valid() && dealer.Valid() && d.Valid()
    requires player.Score() <= 21 && dealer.splitNumber == 0 && Dealt(dealer.Stats())
    requires r.ShouldHitDealerHand(dealer.Stats())
    requires player != dealer && player !in d.Repr && dealer !in d.Repr
    requires k < 13 && numberOfValidCards == ValidCards(r, Counts(d.table), dealer.Stats())
    requires countOfVal == Counts(d.table)[k] > 0
    requires DealerPrefix(r, Counts(d.table), player.Stats(), dealer.Stats(), k) == Some(finalResult)
    modifies dealer, d, d.Repr
    ensures dealer.Valid() && d.Valid()
    ensures dealer.cards == old(dealer.cards) && dealer.Stats() == old(dealer.Stats())
    ensures d.table == old(d.table)
    ensures next == DealerPrefix(r, Counts(old(d.table)), old(player.Stats()), old(dealer.Stats()), k + 1)
    decreases DealerRoom(dealer.Stats()), 0, 0
  {
    ghost var vc := Counts(d.table);
    ghost var dh := dealer.Stats();
    var v := VALUES[k];
    assert v == ValueAt(k);
    CountsOf(d.table, v);
    DealerStep(r, vc, player.Stats(), dh, k);
    var c := Deal(dealer, d, v, suitDraw);
    if r.IsBlackjack(dealer.Stats()) && !r.DealerBlackjackAfterHand() {
      next := Some(finalResult);
    } else {
      next := DealerGoesOn(player, dealer, d, r, suitDraw, countOfVal, numberOfValidCards, finalResult, vc, dh, k);
    }
    Return(dealer, d, c, old(dealer.cards), dh, old(d.table));
  }

  /** A counted dealer draw, once the card is in the dealer's hand: the
      dealer's play goes on, and its value weighted by the card's share of
      the valid cards is added to `finalResult`. `vc`, `dh` and `k` are the
      counts, the dealer's hand and the value before the card was dealt. */
  method DealerGoesOn(player: BJHandImpl, dealer: BJHandImpl, d: GenericDirectShoe, r: BJRules, suitDraw: nat,
                      countOfVal: nat, numberOfValidCards: int, finalResult: real,
                      ghost vc: seq<nat>, ghost dh: HandStats, ghost k: nat)
    returns (next: Option<real>)
    requires player.Valid() && dealer.Valid() && d.Valid()
    requires player.Score() <= 21 && player != dealer && player !in d.Repr && dealer !in d.Repr
    requires |vc| == 13 && k < 13 && Dealt(dh) && dh.splitNumber == 0 && r.ShouldHitDealerHand(dh)
    requires Counted(r, vc, dh, k) && countOfVal == vc[k] && numberOfValidCards == ValidCards(r, vc, dh)
    requires DealerPrefix(r, vc, player.Stats(), dh, k) == Some(finalResult)
    requires Counts(d.table) == vc[k := vc[k] - 1] && dealer.Stats() == dh.Add(ValueAt(k))
    modifies dealer, d, d.Repr
    ensures dealer.Valid() && d.Valid()
    ensures dealer.cards == old(dealer.cards) && dealer.Stats() == old(dealer.Stats())
    ensures d.table == old(d.table)
    ensures next == DealerPrefix(r, vc, old(player.Stats()), dh, k + 1)
    decreases DealerRoom(dealer.Stats()), 3, 0
  {
    ghost var p := player.Stats();
    DealtAdd(dh, ValueAt(k));
    var evWithValue := ExpectedWithDealer(player, dealer, d, r, suitDraw);
    match evWithValue
    case None =>
      DealerEVSome(r, vc[k := vc[k] - 1], p, dh.Add(ValueAt(k)));
      assert false;
    case Some(e) =>
      ValidCardsCover(r, vc, dh, k);
      var oddsOfValue := countOfVal as real / numberOfValidCards as real;
      DealerTaken(r, vc, p, dh, k, finalResult, oddsOfValue, e);
      next := Some(finalResult + Weighted(oddsOfValue, e));
  }

  /** One more value in the dealer's sum: nothing when none is left or when
      it would complete a dealer blackjack that ends the hand. */
  lemma DealerStep(r: BJRules, vc: seq<nat>, p: HandStats, dh: HandStats, k: nat)
    requires |vc| == 13 && p.Score() <= 21 && Dealt(dh) && dh.splitNumber == 0
    requires r.ShouldHitDealerHand(dh) && k < 13
    ensures !Counted(r, vc, dh, k) ==> DealerPrefix(r, vc, p, dh, k + 1) == DealerPrefix(r, vc, p, dh, k)
  {
  }

  /** A counted draw adds its odds among the valid cards times the
      dealer's value `e` with it dealt. */
  lemma DealerTaken(r: BJRules, vc: seq<nat>, p: HandStats, dh: HandStats, k: nat, acc: real, o: real, e: real)
    requires |vc| == 13 && p.Score() <= 21 && Dealt(dh) && dh.splitNumber == 0
    requires r.ShouldHitDealerHand(dh) && k < 13 && Counted(r, vc, dh, k)
    requires DealerPrefix(r, vc, p, dh, k) == Some(acc) && ValidCards(r, vc, dh) > 0
    requires o == Odds(vc[k], ValidCards(r, vc, dh))
    requires Dealt(dh.Add(ValueAt(k))) && DealerEV(r, vc[k := vc[k] - 1], p, dh.Add(ValueAt(k))) == Some(e)
    ensures DealerPrefix(r, vc, p, dh, k + 1) == Some(acc + Weighted(o, e))
  {
    DealerTermIs(r, vc, p, dh, k, e);
    assert Weighted(Odds(vc[k], ValidCards(r, vc, dh)), e) == Weighted(o, e);
    DealerAdds(r, vc, p, dh, k, acc, Weighted(o, e));
  }

  lemma DealerTermIs(r: BJRules, vc: seq<nat>, p: HandStats, dh: HandStats, k: nat, e: real)
    requires |vc| == 13 && p.Score() <= 21 && Dealt(dh) && dh.splitNumber == 0
    requires r.ShouldHitDealerHand(dh) && k < 13 && Counted(r, vc, dh, k)
    requires ValidCards(r, vc, dh) > 0
    requires Dealt(dh.Add(ValueAt(k))) && DealerEV(r, vc[k := vc[k] - 1], p, dh.Add(ValueAt(k))) == Some(e)
    ensures DealerTerm(r, vc, p, dh, k) == Some(Weighted(Odds(vc[k], ValidCards(r, vc, dh)), e))
  {
  }

  lemma DealerAdds(r: BJRules, vc: seq<nat>, p: HandStats, dh: HandStats, k: nat, acc: real, w: real)
    requires |vc| == 13 && p.Score() <= 21 && Dealt(dh) && dh.splitNumber == 0
    requires r.ShouldHitDealerHand(dh) && k < 13 && Counted(r, vc, dh, k)
    requires DealerPrefix(r, vc, p, dh, k) == Some(acc) && DealerTerm(r, vc, p, dh, k) == Some(w)
    ensures DealerPrefix(r, vc, p, dh, k + 1) == Some(acc + w)
  {
  }

  /** `number_of_valid_cards`. */
  method ValidCardsOf(dealer: BJHandImpl, d: GenericDirectShoe, r: BJRules) returns (n: int)
    requires dealer.Valid() && d.Valid()
    ensures n == ValidCards(r, Counts(d.table), dealer.Stats())
  {
    if r.DealerBlackjackAfterHand() || dealer.Len() != 1 {
      n := d.Len();
    } else {
      CountsOf(d.table, ACE);
      CountsOf(d.table, TEN);
      CountsOf(d.table, JACK);
      CountsOf(d.table, QUEEN);
      CountsOf(d.table, KING);
      var score := dealer.Score();
      if score == 10 {
        n := d.Len() - d.Count(ACE);
      } else if score == 11 {
        n := d.Len() - d.Count(TEN) - d.Count(JACK) - d.Count(QUEEN) - d.Count(KING);
      } else {
        n := d.Len();
      }
    }
  }
}

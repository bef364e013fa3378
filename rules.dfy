/** The table rules: which actions are legal for a hand, when the dealer
    hits, and what a blackjack pays. Every rule reads only a hand's length,
    split number and score. */
module Rules {
  import opened Hand

  datatype BJRules = BJRules(canSurrender: bool) {
    /** Doubling is allowed on exactly two cards. */
    predicate CanDouble(h: HandStats) {
      h.len == 2
    }

    /** Splitting is allowed while fewer than four splits were made; the
        two cards are not required to pair. */
    predicate CanSplit(h: HandStats) {
      h.splitNumber < 4
    }

    predicate CanSurrender(h: HandStats) {
      canSurrender && h.len == 2 && h.splitNumber == 0
    }

    predicate ShouldHitDealerHand(h: HandStats) {
      h.Score() < 17
    }

    function BlackjackPayout(): real {
      1.5
    }

    predicate CanHit(h: HandStats) {
      h.Score() < 21
    }

    predicate DealerBlackjackAfterHand() {
      false
    }

    /** A natural: two unsplit cards scoring 21. */
    predicate IsBlackjack(h: HandStats) {
      h.splitNumber == 0 && h.len == 2 && h.Score() == 21
    }
  }

  function New(): (r: BJRules)
    ensures !r.canSurrender
  {
    BJRules(false)
  }

  function NewComplex(canSurrender: bool): (r: BJRules)
    ensures r.canSurrender == canSurrender
  {
    BJRules(canSurrender)
  }

  /** Rules with and without surrender agree on everything else: doubling,
      splitting, hitting, the dealer's rule and the 3:2 blackjack payout;
      the dealer never checks for a blackjack after the hand. Surrender, when
      allowed, is offered only where doubling is. */
  lemma OnlySurrenderDiffers(a: BJRules, b: BJRules, h: HandStats)
    ensures a.CanDouble(h) == b.CanDouble(h) && a.CanSplit(h) == b.CanSplit(h)
    ensures a.CanHit(h) == b.CanHit(h) && a.ShouldHitDealerHand(h) == b.ShouldHitDealerHand(h)
    ensures a.BlackjackPayout() == b.BlackjackPayout() == 1.5
    ensures !a.DealerBlackjackAfterHand()
    ensures a.CanSurrender(h) ==> a.canSurrender && a.CanDouble(h)
  {
  }

  /** The default rules never allow surrender; with surrender enabled it is
      allowed exactly on an unsplit two-card hand. */
  lemma SurrenderRules(h: HandStats)
    ensures !New().CanSurrender(h)
    ensures NewComplex(true).CanSurrender(h) <==> h.len == 2 && h.splitNumber == 0
  {
  }

  /** A blackjack cannot be hit, may be doubled, and is a soft hand: two
      cards reach 21 only as an ace counted 11 plus a ten-valued card. */
  lemma BlackjackIsSoft(r: BJRules, cards: seq<Cards.Card>)
    requires AllRanks(cards)
    requires r.IsBlackjack(StatsOf(cards, 0))
    ensures !r.CanHit(StatsOf(cards, 0)) && r.CanDouble(StatsOf(cards, 0))
    ensures StatsOf(cards, 0).IsSoft() && StatsOf(cards, 0).base == 11
  {
    assert cards == [cards[0]] + [cards[1]];
    SumsConcat([cards[0]], [cards[1]]);
    SumsSingle(cards[0]);
    SumsSingle(cards[1]);
  }

  /** The dealer stands on 17 or more by these rules, and the player may
      keep hitting below 21: the dealer's bound is the stricter one. */
  lemma HitBounds(r: BJRules, h: HandStats)
    ensures r.ShouldHitDealerHand(h) ==> r.CanHit(h)
    ensures r.ShouldHitDealerHand(h) <==> h.Score() < 17
    ensures r.CanHit(h) ==> h.base < 21
  {
  }
}

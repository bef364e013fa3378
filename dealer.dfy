/** The dealer's drawing decision. */
module Dealer {
  import opened Cards
  import opened Hand
  import opened Rules

  /** `hitSoft17` is carried but never read: the dealer always hits a soft 17. */
  datatype DealerCardDecision = DealerCardDecision(hitSoft17: bool) {
    predicate ShouldDeal(h: HandStats) {
      var s := h.Score();
      if s < 17 then true
      else if s == 17 && h.IsSoft() then true
      else false
    }
  }

  /** The dealer draws below 17 and on soft 17, and stands otherwise,
      whatever `hitSoft17` says. */
  lemma ShouldDealMeaning(d: DealerCardDecision, h: HandStats)
    ensures d.ShouldDeal(h) <==> h.Score() < 17 || (h.Score() == 17 && h.IsSoft())
    ensures d.ShouldDeal(h) == DealerCardDecision(!d.hitSoft17).ShouldDeal(h)
  {
  }

  /** A card keeps being wanted only while the base is below 17, so every
      dealer draw happens on a hand whose base total is at most 16. */
  lemma ShouldDealBound(d: DealerCardDecision, h: HandStats)
    requires d.ShouldDeal(h)
    ensures h.base <= 16
  {
  }

  /** The table rules' dealer stands on every 17; this decision draws on a
      soft 17 as well, and that is the only hand on which the two differ. */
  lemma DecisionAgainstRules(d: DealerCardDecision, r: BJRules, h: HandStats)
    ensures r.ShouldHitDealerHand(h) ==> d.ShouldDeal(h)
    ensures d.ShouldDeal(h) != r.ShouldHitDealerHand(h) <==> h.Score() == 17 && h.IsSoft()
  {
  }

  /** The repository's dealer test: the empty hand, TEN, TEN+TWO and
      TEN+TWO+ACE all draw; adding a KING (23) stands. */
  lemma DealerTestSequence()
    ensures DealerCardDecision(true).ShouldDeal(EMPTY)
    ensures DealerCardDecision(true).ShouldDeal(EMPTY.Add(TEN))
    ensures DealerCardDecision(true).ShouldDeal(EMPTY.Add(TEN).Add(TWO))
    ensures DealerCardDecision(true).ShouldDeal(EMPTY.Add(TEN).Add(TWO).Add(ACE))
    ensures !DealerCardDecision(true).ShouldDeal(EMPTY.Add(TEN).Add(TWO).Add(ACE).Add(KING))
  {
    assert ScoreForValue(TEN) == 10 && ScoreForValue(ACE) == 1;
    assert ScoreForValue(TWO) == 2 && ScoreForValue(KING) == 10;
    assert EMPTY.Add(TEN).Add(TWO).Add(ACE) == HandStats(13, 1, 3, 0);
    assert EMPTY.Add(TEN).Add(TWO).Add(ACE).Add(KING) == HandStats(23, 1, 4, 0);
  }
}

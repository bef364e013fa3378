/** The four hashers that canonicalise game states for the memo table:
    the dealer's hand, a bare score, the player's hand and a suitless shoe.
    Each builds a list of `HashRange`s and hashes it with `create_hash`. */
module HandHashers {
  import opened Cards
  import opened Hand
  import opened Hasher
  import opened Options

  /** What the player hasher reads of a hand: the bookkeeping view, the
      cards, and the double and split counters the hand keeps for the
      rules. */
  datatype PlayerHand = PlayerHand(stats: HandStats, cards: seq<Card>,
                                   doubleCount: nat, splitsDone: nat, splitsToSolve: nat)

  /** The rule accessors the hashers consult: the dealer's soft-hit
      decision by score, the doubling and splitting limits, and action
      legality. */
  datatype HashRules = HashRules(dealerHitsSoftScore: nat -> bool,
                                 maxDoublesSingleHand: nat, splitLimit: nat,
                                 canTakeAction: (PlayerHand, BJAction) -> bool)

  /** Scores above 22 are all one bucket. */
  function ClampScore(score: nat): (c: nat)
    ensures c <= 22
  {
    if score > 22 then 22 else score
  }

  /** Two scores clamp alike exactly when they are equal or both at least 22. */
  lemma ClampScoreEquiv(a: nat, b: nat)
    ensures ClampScore(a) == ClampScore(b) <==> a == b || (a >= 22 && b >= 22)
    ensures a <= 22 ==> ClampScore(a) == a
  {
  }

  function BitOf(b: bool): nat {
    if b then 1 else 0
  }

  /** The dealer's card count matters only as one, two, or more; an empty
      hand falls in the last bucket. */
  function CardsBucket(len: nat): (k: nat)
    ensures k < 3
  {
    if len == 1 then 0 else if len == 2 then 1 else 2
  }

  /** The dealer's softness matters only when the rules have the dealer hit
      that soft score; otherwise soft and hard totals play alike. */
  predicate DealerSoft(r: HashRules, h: HandStats) {
    h.IsSoft() && r.dealerHitsSoftScore(h.Score())
  }

  function DealerRanges(r: HashRules, h: HandStats): (rs: seq<HashRange>)
    ensures AllValid(rs) && Radices(rs) == [3, 23, 2]
  {
    [NewRange(3, CardsBucket(h.len)), NewRange(23, ClampScore(h.Score())), NewRange(2, BitOf(DealerSoft(r, h)))]
  }

  /** `DealerHandHasher::hash_hand`; `hash_hand_ignore_actions` is the same. */
  function DealerHash(r: HashRules, h: HandStats): seq<byte> {
    HashOf(DealerRanges(r, h))
  }

  /** Two dealer hands hash alike exactly when they agree on the card-count
      bucket, the clamped score and the rule-relevant softness. */
  lemma DealerHashEquiv(r: HashRules, a: HandStats, b: HandStats)
    ensures DealerHash(r, a) == DealerHash(r, b) <==>
      CardsBucket(a.len) == CardsBucket(b.len) && ClampScore(a.Score()) == ClampScore(b.Score())
      && DealerSoft(r, a) == DealerSoft(r, b)
  {
    HashInjective(DealerRanges(r, a), DealerRanges(r, b));
  }

  function ScoreRanges(h: HandStats): (rs: seq<HashRange>)
    ensures AllValid(rs) && Radices(rs) == [23]
  {
    [NewRange(23, ClampScore(h.Score()))]
  }

  /** `HandScoreHasher::hash_hand`: the clamped score only. */
  function ScoreHash(h: HandStats): seq<byte> {
    HashOf(ScoreRanges(h))
  }

  lemma ScoreHashEquiv(a: HandStats, b: HandStats)
    ensures ScoreHash(a) == ScoreHash(b) <==> ClampScore(a.Score()) == ClampScore(b.Score())
  {
    HashInjective(ScoreRanges(a), ScoreRanges(b));
  }

  /** The order in which the player hasher records action legality. */
  const ACTION_ORDER: seq<BJAction> := [STAND, HIT, DOUBLE, SPLIT, SURRENDER]

  /** The counters fit the ranges the rules give them, as `HashRange::new`
      asserts. */
  predicate PlayerHandFits(r: HashRules, h: PlayerHand) {
    (r.maxDoublesSingleHand > 0 ==> h.doubleCount <= r.maxDoublesSingleHand)
    && (r.splitLimit > 0 ==> h.splitsDone <= r.splitLimit && h.splitsToSolve <= r.splitLimit)
  }

  function ScoreAndSoft(h: HandStats): (rs: seq<HashRange>)
    ensures AllValid(rs) && Radices(rs) == [23, 2]
  {
    [NewRange(23, ClampScore(h.Score())), NewRange(2, BitOf(h.IsSoft()))]
  }

  function DoubleRanges(r: HashRules, h: PlayerHand): (rs: seq<HashRange>)
    requires PlayerHandFits(r, h)
    ensures AllValid(rs)
    ensures Radices(rs) == if r.maxDoublesSingleHand > 0 then [r.maxDoublesSingleHand + 1] else []
  {
    if r.maxDoublesSingleHand > 0 then [NewRange(r.maxDoublesSingleHand + 1, h.doubleCount)] else []
  }

  function SplitRanges(r: HashRules, h: PlayerHand): (rs: seq<HashRange>)
    requires PlayerHandFits(r, h)
    ensures AllValid(rs)
    ensures Radices(rs) == if r.splitLimit > 0 then [r.splitLimit + 1, r.splitLimit + 1] else []
  {
    if r.splitLimit > 0 then [NewRange(r.splitLimit + 1, h.splitsDone), NewRange(r.splitLimit + 1, h.splitsToSolve)]
    else []
  }

  function ActionRange(r: HashRules, h: PlayerHand, a: BJAction): (x: HashRange)
    ensures x.Valid() && x.maxValue == 2
  {
    NewRange(2, BitOf(r.canTakeAction(h, a)))
  }

  function ActionRanges(r: HashRules, h: PlayerHand, withActions: bool): (rs: seq<HashRange>)
    ensures AllValid(rs)
    ensures Radices(rs) == if withActions then [2, 2, 2, 2, 2] else []
  {
    if withActions then seq(5, i requires 0 <= i < 5 => ActionRange(r, h, ACTION_ORDER[i])) else []
  }

  /** The ranges `hash_impl` pushes, in order. */
  function PlayerRanges(r: HashRules, h: PlayerHand, withActions: bool): (rs: seq<HashRange>)
    requires PlayerHandFits(r, h)
    ensures AllValid(rs)
  {
    var rs := ScoreAndSoft(h.stats) + DoubleRanges(r, h) + SplitRanges(r, h) + ActionRanges(r, h, withActions);
    AllValidConcat4(ScoreAndSoft(h.stats), DoubleRanges(r, h), SplitRanges(r, h), ActionRanges(r, h, withActions));
    rs
  }

  lemma AllValidConcat4(a: seq<HashRange>, b: seq<HashRange>, c: seq<HashRange>, d: seq<HashRange>)
    requires AllValid(a) && AllValid(b) && AllValid(c) && AllValid(d)
    ensures AllValid(a + b + c + d)
  {
    var s := a + b + c + d;
    forall i | 0 <= i < |s| ensures s[i].Valid() {
      if i < |a| {
        assert s[i] == a[i];
      } else if i < |a| + |b| {
        assert s[i] == b[i - |a|];
      } else if i < |a| + |b| + |c| {
        assert s[i] == c[i - |a| - |b|];
      } else {
        assert s[i] == d[i - |a| - |b| - |c|];
      }
    }
  }

  lemma RadicesConcat(a: seq<HashRange>, b: seq<HashRange>)
    ensures Radices(a + b) == Radices(a) + Radices(b)
  {
  }

  /** The player hash has the same radices for every hand under the same
      rules and flag. */
  lemma PlayerRadices(r: HashRules, a: PlayerHand, b: PlayerHand, withActions: bool)
    requires PlayerHandFits(r, a) && PlayerHandFits(r, b)
    ensures Radices(PlayerRanges(r, a, withActions)) == Radices(PlayerRanges(r, b, withActions))
  {
    var a0, a1, a2, a3 := ScoreAndSoft(a.stats), DoubleRanges(r, a), SplitRanges(r, a), ActionRanges(r, a, withActions);
    var b0, b1, b2, b3 := ScoreAndSoft(b.stats), DoubleRanges(r, b), SplitRanges(r, b), ActionRanges(r, b, withActions);
    RadicesConcat(a0 + a1 + a2, a3);
    RadicesConcat(a0 + a1, a2);
    RadicesConcat(a0, a1);
    RadicesConcat(b0 + b1 + b2, b3);
    RadicesConcat(b0 + b1, b2);
    RadicesConcat(b0, b1);
  }

  /** Concatenations of parts of equal lengths are equal exactly when the
      parts are. */
  lemma Concat4Equal<T>(a0: seq<T>, a1: seq<T>, a2: seq<T>, a3: seq<T>,
                        b0: seq<T>, b1: seq<T>, b2: seq<T>, b3: seq<T>)
    requires |a0| == |b0| && |a1| == |b1| && |a2| == |b2| && |a3| == |b3|
    ensures a0 + a1 + a2 + a3 == b0 + b1 + b2 + b3 <==> a0 == b0 && a1 == b1 && a2 == b2 && a3 == b3
  {
    if a0 + a1 + a2 + a3 == b0 + b1 + b2 + b3 {
      var s, t := a0 + a1 + a2 + a3, b0 + b1 + b2 + b3;
      var n0, n1, n2 := |a0|, |a0| + |a1|, |a0| + |a1| + |a2|;
      assert a0 == s[..n0] && b0 == t[..n0];
      assert a1 == s[n0..n1] && b1 == t[n0..n1];
      assert a2 == s[n1..n2] && b2 == t[n1..n2];
      assert a3 == s[n2..] && b3 == t[n2..];
    }
  }

  /** The two hands agree on the legality of every action. */
  predicate SameActions(r: HashRules, a: PlayerHand, b: PlayerHand) {
    forall act: BJAction :: r.canTakeAction(a, act) == r.canTakeAction(b, act)
  }

  /** The position of each action in `ACTION_ORDER`. */
  function ActionPosition(act: BJAction): (i: nat)
    ensures i < 5 && ACTION_ORDER[i] == act
  {
    match act
    case STAND => 0
    case HIT => 1
    case DOUBLE => 2
    case SPLIT => 3
    case SURRENDER => 4
  }

  lemma ActionRangesEqual(r: HashRules, a: PlayerHand, b: PlayerHand)
    ensures ActionRanges(r, a, true) == ActionRanges(r, b, true) <==> SameActions(r, a, b)
  {
    var x, y := ActionRanges(r, a, true), ActionRanges(r, b, true);
    if x == y {
      forall act: BJAction
        ensures r.canTakeAction(a, act) == r.canTakeAction(b, act)
      {
        var i := ActionPosition(act);
        assert x[i] == y[i];
      }
    }
    if SameActions(r, a, b) {
      assert forall i :: 0 <= i < 5 ==> x[i] == y[i];
    }
  }

  /** What `hash_impl` returns: `hash_hand` passes `withActions` = true and
      `hash_hand_ignore_actions` false. */
  function PlayerHash(r: HashRules, h: PlayerHand, withActions: bool): seq<byte>
    requires PlayerHandFits(r, h)
  {
    HashOf(PlayerRanges(r, h, withActions))
  }

  /** Two player hands hash alike exactly when they agree on the clamped
      score, the softness, the double count (when doubles are limited), the
      split counters (when splits are limited) and, when actions are
      included, the legality of each of the five actions. */
  lemma PlayerHashEquiv(r: HashRules, a: PlayerHand, b: PlayerHand, withActions: bool)
    requires PlayerHandFits(r, a) && PlayerHandFits(r, b)
    ensures PlayerHash(r, a, withActions) == PlayerHash(r, b, withActions) <==>
      ClampScore(a.stats.Score()) == ClampScore(b.stats.Score())
      && a.stats.IsSoft() == b.stats.IsSoft()
      && (r.maxDoublesSingleHand > 0 ==> a.doubleCount == b.doubleCount)
      && (r.splitLimit > 0 ==> a.splitsDone == b.splitsDone && a.splitsToSolve == b.splitsToSolve)
      && (withActions ==> SameActions(r, a, b))
  {
    PlayerRadices(r, a, b, withActions);
    HashInjective(PlayerRanges(r, a, withActions), PlayerRanges(r, b, withActions));
    Concat4Equal(ScoreAndSoft(a.stats), DoubleRanges(r, a), SplitRanges(r, a), ActionRanges(r, a, withActions),
                 ScoreAndSoft(b.stats), DoubleRanges(r, b), SplitRanges(r, b), ActionRanges(r, b, withActions));
    if withActions {
      ActionRangesEqual(r, a, b);
    }
  }

  /** `PlayerHandHasher::hash_impl`: pushes the score, the softness, the
      limited counters and the five legality bits, then hashes them. */
  method HashImpl(r: HashRules, h: PlayerHand, withActions: bool) returns (hash: seq<byte>)
    requires PlayerHandFits(r, h)
    ensures hash == PlayerHash(r, h, withActions)
  {
    var score := h.stats.Score();
    if score > 22 {
      score := 22;
    }
    var isSoft := NewRange(2, if h.stats.IsSoft() then 1 else 0);
    var v := [];
    v := v + [NewRange(23, score)];
    v := v + [isSoft];
    assert v == ScoreAndSoft(h.stats);
    if r.maxDoublesSingleHand > 0 {
      v := v + [NewRange(r.maxDoublesSingleHand + 1, h.doubleCount)];
    }
    assert v == ScoreAndSoft(h.stats) + DoubleRanges(r, h);
    if r.splitLimit > 0 {
      v := v + [NewRange(r.splitLimit + 1, h.splitsDone)];
      v := v + [NewRange(r.splitLimit + 1, h.splitsToSolve)];
    }
    ghost var fixed := v;
    assert fixed == ScoreAndSoft(h.stats) + DoubleRanges(r, h) + SplitRanges(r, h);
    if withActions {
      var actions := [STAND, HIT, DOUBLE, SPLIT, SURRENDER];
      for k := 0 to 5
        invariant v == fixed + ActionRanges(r, h, true)[..k]
      {
        v := v + [NewRange(2, if r.canTakeAction(h, actions[k]) then 1 else 0)];
        assert ActionRanges(r, h, true)[..k + 1] == ActionRanges(r, h, true)[..k] + [ActionRange(r, h, actions[k])];
      }
      assert ActionRanges(r, h, true)[..5] == ActionRanges(r, h, true);
    }
    assert v == PlayerRanges(r, h, withActions);
    hash := CreateHash(v);
  }

  /** The shoe holds at most `maxCount` of any value, as the deck hasher
      assumes when it gives every count a radix of `maxCount + 1`. */
  predicate CountsFit(maxCount: nat, counts: seq<nat>) {
    |counts| == 13 && maxCount >= 1 && forall i :: 0 <= i < 13 ==> counts[i] <= maxCount
  }

  function DeckRanges(maxCount: nat, counts: seq<nat>): (rs: seq<HashRange>)
    requires CountsFit(maxCount, counts)
    ensures AllValid(rs) && Radices(rs) == seq(13, _ => maxCount + 1)
  {
    seq(13, i requires 0 <= i < 13 => NewRange(maxCount + 1, counts[i]))
  }

  /** `SuitlessDeckHasher::hash_deck` over the counts the shoe reports for
      the thirteen values in order: a shoe without a maximum count (an
      infinite shoe) hashes to `[0]`. */
  function DeckHash(maxCount: Option<nat>, counts: seq<nat>): seq<byte>
    requires |counts| == 13
    requires maxCount.Some? ==> CountsFit(maxCount.value, counts)
  {
    match maxCount
    case None => [0]
    case Some(s) => HashOf(DeckRanges(s, counts))
  }

  /** Every state of an infinite shoe hashes alike; finite shoes with the
      same maximum hash alike exactly when every value count agrees, so the
      order in which cards left the shoe does not matter. */
  lemma DeckHashEquiv(maxCount: Option<nat>, a: seq<nat>, b: seq<nat>)
    requires |a| == 13 && |b| == 13
    requires maxCount.Some? ==> CountsFit(maxCount.value, a) && CountsFit(maxCount.value, b)
    ensures maxCount.None? ==> DeckHash(maxCount, a) == DeckHash(maxCount, b)
    ensures maxCount.Some? ==> (DeckHash(maxCount, a) == DeckHash(maxCount, b) <==> a == b)
  {
    if maxCount.Some? {
      var x, y := DeckRanges(maxCount.value, a), DeckRanges(maxCount.value, b);
      HashInjective(x, y);
      if x == y {
        assert forall i :: 0 <= i < 13 ==> a[i] == x[i].currentValue == y[i].currentValue == b[i];
      }
    }
  }
}

/** The repository's dealer, player and deck hash tests. The rule
    accessors those tests rely on are instantiated here: the default rules
    have the dealer hit soft totals below 17 and the second rule set soft
    totals up to 17; the default legality allows STAND, HIT below 21,
    DOUBLE on two cards and SPLIT on a pair, the second rule set only STAND
    and HIT. */
module HandHasherTests {
  import opened Cards
  import opened Hand
  import opened HandHashers
  import opened Options

  /** The bookkeeping of a fresh hand dealt `a` then `b` (a joker, which no
      shoe holds, leaves the hand empty). */
  function Stats2(a: Value, b: Value): HandStats {
    if a.IsRank() && b.IsRank() then EMPTY.Add(a).Add(b) else EMPTY
  }

  /** The default rules: the dealer hits soft totals below 17. */
  ghost predicate DefaultDealer(r: HashRules) {
    forall s: nat :: r.dealerHitsSoftScore(s) == (s < 17)
  }

  /** Rules under which the dealer also hits soft 17. */
  ghost predicate Soft17Dealer(r: HashRules) {
    forall s: nat :: r.dealerHitsSoftScore(s) == (s <= 17)
  }

  /** The dealer hash of two hands as `DealerHashEquiv` decides it. */
  lemma DealerCompare(r: HashRules, a: HandStats, b: HandStats, same: bool)
    requires same == (CardsBucket(a.len) == CardsBucket(b.len) && ClampScore(a.Score()) == ClampScore(b.Score())
                      && DealerSoft(r, a) == DealerSoft(r, b))
    ensures (DealerHash(r, a) == DealerHash(r, b)) == same
  {
    DealerHashEquiv(r, a, b);
  }

  /** `test_dealer_hash`, default rules: ten-six and eight-eight (16)
      alike; ace-seven (soft 18) and ten-eight alike; ace-six (soft 17) and
      ten-seven alike. */
  lemma TestDealerHashAlike(r: HashRules)
    requires DefaultDealer(r)
    ensures DealerHash(r, Stats2(TEN, SIX)) == DealerHash(r, Stats2(EIGHT, EIGHT))
    ensures DealerHash(r, Stats2(ACE, SEVEN)) == DealerHash(r, Stats2(TEN, EIGHT))
    ensures DealerHash(r, Stats2(ACE, SIX)) == DealerHash(r, Stats2(TEN, SEVEN))
  {
    assert Stats2(TEN, SIX) == Stats2(EIGHT, EIGHT);
    SoftEighteenAlike(r);
    SoftSeventeenAlike(r);
  }

  lemma SoftEighteenAlike(r: HashRules)
    requires !r.dealerHitsSoftScore(18)
    ensures DealerHash(r, Stats2(ACE, SEVEN)) == DealerHash(r, Stats2(TEN, EIGHT))
  {
    DealerCompare(r, Stats2(ACE, SEVEN), Stats2(TEN, EIGHT), true);
  }

  lemma SoftSeventeenAlike(r: HashRules)
    requires DefaultDealer(r)
    ensures DealerHash(r, Stats2(ACE, SIX)) == DealerHash(r, Stats2(TEN, SEVEN))
  {
    DealerCompare(r, Stats2(ACE, SIX), Stats2(TEN, SEVEN), true);
  }

  /** `test_dealer_hash`, default rules: ace-seven (soft 18) apart from
      ten-seven; ace-three (soft 14) apart from ten-four. */
  lemma TestDealerHashApart(r: HashRules)
    requires DefaultDealer(r)
    ensures DealerHash(r, Stats2(ACE, SEVEN)) != DealerHash(r, Stats2(TEN, SEVEN))
    ensures DealerHash(r, Stats2(ACE, THREE)) != DealerHash(r, Stats2(TEN, FOUR))
  {
    SoftEighteenApart(r);
    SoftFourteenApart(r);
  }

  lemma SoftEighteenApart(r: HashRules)
    requires DefaultDealer(r)
    ensures DealerHash(r, Stats2(ACE, SEVEN)) != DealerHash(r, Stats2(TEN, SEVEN))
  {
    DealerCompare(r, Stats2(ACE, SEVEN), Stats2(TEN, SEVEN), false);
  }

  lemma SoftFourteenApart(r: HashRules)
    requires DefaultDealer(r)
    ensures DealerHash(r, Stats2(ACE, THREE)) != DealerHash(r, Stats2(TEN, FOUR))
  {
    DealerCompare(r, Stats2(ACE, THREE), Stats2(TEN, FOUR), false);
  }

  /** `test_dealer_hash`, dealer hitting soft 17: ace-six now hashes apart
      from ten-seven, while ace-seven still matches ten-eight. */
  lemma TestDealerHashSoft17(r: HashRules)
    requires Soft17Dealer(r)
    ensures DealerHash(r, Stats2(ACE, SIX)) != DealerHash(r, Stats2(TEN, SEVEN))
    ensures DealerHash(r, Stats2(ACE, SEVEN)) == DealerHash(r, Stats2(TEN, EIGHT))
  {
    SoftSeventeenApart(r);
    SoftEighteenAlike(r);
  }

  lemma SoftSeventeenApart(r: HashRules)
    requires Soft17Dealer(r)
    ensures DealerHash(r, Stats2(ACE, SIX)) != DealerHash(r, Stats2(TEN, SEVEN))
  {
    DealerCompare(r, Stats2(ACE, SIX), Stats2(TEN, SEVEN), false);
  }

  predicate IsPair(h: PlayerHand) {
    |h.cards| == 2 && h.cards[0].v == h.cards[1].v
  }

  /** Action legality under the default rules: stand always, hit below 21,
      double on two cards, split a pair, no surrender. */
  predicate DefaultLegal(h: PlayerHand, a: BJAction) {
    match a
    case STAND => true
    case HIT => h.stats.Score() < 21
    case DOUBLE => h.stats.len == 2
    case SPLIT => IsPair(h)
    case SURRENDER => false
  }

  /** The default player rules: one double per hand, four splits. */
  ghost predicate DefaultPlayer(r: HashRules) {
    r.maxDoublesSingleHand == 1 && r.splitLimit == 4
    && forall h: PlayerHand, a: BJAction :: r.canTakeAction(h, a) == DefaultLegal(h, a)
  }

  /** Rules without doubling, splitting or surrender. */
  ghost predicate NoExtrasPlayer(r: HashRules) {
    r.maxDoublesSingleHand == 0 && r.splitLimit == 0
    && forall h: PlayerHand, a: BJAction :: r.canTakeAction(h, a) == (a == STAND || (a == HIT && h.stats.Score() < 21))
  }

  /** A fresh hand dealt `a` then `b`, all spades. */
  function Dealt2(a: Value, b: Value): PlayerHand {
    PlayerHand(Stats2(a, b), [Card(a, SPADE), Card(b, SPADE)], 0, 0, 0)
  }

  /** A fresh hand dealt `a`, `b` then `c`, all spades. */
  function Dealt3(a: Value, b: Value, c: Value): PlayerHand {
    PlayerHand(if c.IsRank() then Stats2(a, b).Add(c) else Stats2(a, b),
               [Card(a, SPADE), Card(b, SPADE), Card(c, SPADE)], 0, 0, 0)
  }

  /** Hands that agree on everything `PlayerHashEquiv` reads hash alike. */
  lemma PlayerEqual(r: HashRules, a: PlayerHand, b: PlayerHand)
    requires PlayerHandFits(r, a) && PlayerHandFits(r, b)
    requires ClampScore(a.stats.Score()) == ClampScore(b.stats.Score()) && a.stats.IsSoft() == b.stats.IsSoft()
    requires a.doubleCount == b.doubleCount && a.splitsDone == b.splitsDone && a.splitsToSolve == b.splitsToSolve
    requires SameActions(r, a, b)
    ensures PlayerHash(r, a, true) == PlayerHash(r, b, true)
  {
    PlayerHashEquiv(r, a, b, true);
  }

  /** Hands that differ in softness hash apart. */
  lemma PlayerDifferSoft(r: HashRules, a: PlayerHand, b: PlayerHand)
    requires PlayerHandFits(r, a) && PlayerHandFits(r, b)
    requires a.stats.IsSoft() != b.stats.IsSoft()
    ensures PlayerHash(r, a, true) != PlayerHash(r, b, true)
  {
    PlayerHashEquiv(r, a, b, true);
  }

  /** Hands that differ in whether `act` is allowed hash apart. */
  lemma PlayerDifferAction(r: HashRules, a: PlayerHand, b: PlayerHand, act: BJAction)
    requires PlayerHandFits(r, a) && PlayerHandFits(r, b)
    requires r.canTakeAction(a, act) != r.canTakeAction(b, act)
    ensures PlayerHash(r, a, true) != PlayerHash(r, b, true)
  {
    PlayerHashEquiv(r, a, b, true);
  }

  /** `test_player_hash`, default rules: ten-six apart from the splittable
      eight-eight; ten-two-two, which can no longer double, apart from
      four-ten; soft ace-seven apart from ten-eight. */
  lemma TestPlayerHashApart(r: HashRules)
    requires DefaultPlayer(r)
    ensures PlayerHash(r, Dealt2(TEN, SIX), true) != PlayerHash(r, Dealt2(EIGHT, EIGHT), true)
    ensures PlayerHash(r, Dealt3(TEN, TWO, TWO), true) != PlayerHash(r, Dealt2(FOUR, TEN), true)
    ensures PlayerHash(r, Dealt2(ACE, SEVEN), true) != PlayerHash(r, Dealt2(EIGHT, TEN), true)
  {
    SplitApart(r);
    DoubleApart(r);
    SoftApart(r);
  }

  lemma SplitApart(r: HashRules)
    requires DefaultPlayer(r)
    ensures PlayerHash(r, Dealt2(TEN, SIX), true) != PlayerHash(r, Dealt2(EIGHT, EIGHT), true)
  {
    assert !IsPair(Dealt2(TEN, SIX)) && IsPair(Dealt2(EIGHT, EIGHT));
    PlayerDifferAction(r, Dealt2(TEN, SIX), Dealt2(EIGHT, EIGHT), SPLIT);
  }

  lemma DoubleApart(r: HashRules)
    requires DefaultPlayer(r)
    ensures PlayerHash(r, Dealt3(TEN, TWO, TWO), true) != PlayerHash(r, Dealt2(FOUR, TEN), true)
  {
    assert Dealt3(TEN, TWO, TWO).stats.len == 3 && Dealt2(FOUR, TEN).stats.len == 2;
    PlayerDifferAction(r, Dealt3(TEN, TWO, TWO), Dealt2(FOUR, TEN), DOUBLE);
  }

  lemma SoftApart(r: HashRules)
    requires DefaultPlayer(r)
    ensures PlayerHash(r, Dealt2(ACE, SEVEN), true) != PlayerHash(r, Dealt2(EIGHT, TEN), true)
  {
    assert Stats2(ACE, SEVEN) == HandStats(8, 1, 2, 0) && Stats2(EIGHT, TEN) == HandStats(18, 0, 2, 0);
    PlayerDifferSoft(r, Dealt2(ACE, SEVEN), Dealt2(EIGHT, TEN));
  }

  /** `test_player_hash`, default rules: ten-four alike with eight-six and
      with four-ten. */
  lemma TestPlayerHashAlike(r: HashRules)
    requires DefaultPlayer(r)
    ensures PlayerHash(r, Dealt2(TEN, FOUR), true) == PlayerHash(r, Dealt2(EIGHT, SIX), true)
    ensures PlayerHash(r, Dealt2(TEN, FOUR), true) == PlayerHash(r, Dealt2(FOUR, TEN), true)
  {
    FourteenAlike(r);
    OrderAlike(r);
  }

  lemma FourteenAlike(r: HashRules)
    requires DefaultPlayer(r)
    ensures PlayerHash(r, Dealt2(TEN, FOUR), true) == PlayerHash(r, Dealt2(EIGHT, SIX), true)
  {
    PlayerEqual(r, Dealt2(TEN, FOUR), Dealt2(EIGHT, SIX));
  }

  lemma OrderAlike(r: HashRules)
    requires DefaultPlayer(r)
    ensures PlayerHash(r, Dealt2(TEN, FOUR), true) == PlayerHash(r, Dealt2(FOUR, TEN), true)
  {
    PlayerEqual(r, Dealt2(TEN, FOUR), Dealt2(FOUR, TEN));
  }

  /** `test_player_hash`, no doubling or splitting: ten-two-two and four-ten
      hash alike. */
  lemma TestPlayerHashNoExtras(r: HashRules)
    requires NoExtrasPlayer(r)
    ensures PlayerHash(r, Dealt3(TEN, TWO, TWO), true) == PlayerHash(r, Dealt2(FOUR, TEN), true)
  {
    PlayerEqual(r, Dealt3(TEN, TWO, TWO), Dealt2(FOUR, TEN));
  }

  /** `test_direct_deck_hash2`: taking a TEN from one full deck and a FOUR
      from another gives different hashes, and taking the other card from
      each makes them equal again. */
  lemma TestDeckHashOrder()
    ensures var full := seq(13, _ => 4);
      var noTen := full[TEN.Index() := 3];
      var noFour := full[FOUR.Index() := 3];
      DeckHash(Some(4), noTen) != DeckHash(Some(4), full)
      && DeckHash(Some(4), noTen) != DeckHash(Some(4), noFour)
      && DeckHash(Some(4), noTen[FOUR.Index() := 3]) == DeckHash(Some(4), noFour[TEN.Index() := 3])
  {
    var full: seq<nat> := seq(13, _ => 4);
    var noTen := full[TEN.Index() := 3];
    var noFour := full[FOUR.Index() := 3];
    DeckHashEquiv(Some(4), noTen, full);
    assert noTen[9] != full[9];
    DeckHashEquiv(Some(4), noTen, noFour);
    assert noTen[9] != noFour[9];
    assert noTen[FOUR.Index() := 3] == noFour[TEN.Index() := 3];
  }

  /** `test_random_deck_hash`: an infinite shoe hashes alike before and after a pop. */
  lemma TestInfiniteDeckHash(before: seq<nat>, after: seq<nat>)
    requires |before| == 13 && |after| == 13
    ensures DeckHash(None, before) == DeckHash(None, after) == [0]
  {
  }
}

/** A blackjack hand: a running base score (every ace counted as 1), an ace
    count and a card count kept beside the cards themselves, with the soft
    and hard totals derived from them. */
module Hand {
  import opened Cards
  import opened Seqs

  /** Base score contributed by each rank, by rank index. */
  const INDEX_TO_SCORE: seq<nat> := [1, 2, 3, 4, 5, 6, 7, 8, 9, 10, 10, 10, 10]

  /** The base score of a value: 1 for the ace, the face value for two to
      nine, 10 for ten and the court cards. The joker has no entry. */
  function ScoreForValue(v: Value): (r: nat)
    requires v.IsRank()
    ensures 1 <= r <= 10
    ensures r == 1 <==> v == ACE
  {
    match v
    case ACE => 1
    case TWO => 2
    case THREE => 3
    case FOUR => 4
    case FIVE => 5
    case SIX => 6
    case SEVEN => 7
    case EIGHT => 8
    case NINE => 9
    case TEN | JACK | QUEEN | KING => 10
  }

  /** The score is the entry of the repository's table at the value's index. */
  lemma ScoreIsTableEntry(v: Value)
    requires v.IsRank()
    ensures |INDEX_TO_SCORE| == 13 && ScoreForValue(v) == INDEX_TO_SCORE[v.Index()]
  {
  }

  /** Two to nine score their face value, ten and the court cards 10. */
  lemma ScoreByIndex(v: Value)
    requires v.IsRank()
    ensures TWO.Index() <= v.Index() <= NINE.Index() ==> ScoreForValue(v) == v.Index() + 1
    ensures TEN.Index() <= v.Index() ==> ScoreForValue(v) == 10
  {
  }

  /** The score table value by value. */
  lemma ScoreTable()
    ensures ScoreForValue(ACE) == 1 && ScoreForValue(TWO) == 2 && ScoreForValue(THREE) == 3
    ensures ScoreForValue(FOUR) == 4 && ScoreForValue(FIVE) == 5 && ScoreForValue(SIX) == 6
    ensures ScoreForValue(SEVEN) == 7 && ScoreForValue(EIGHT) == 8 && ScoreForValue(NINE) == 9
    ensures ScoreForValue(TEN) == 10 && ScoreForValue(JACK) == 10
    ensures ScoreForValue(QUEEN) == 10 && ScoreForValue(KING) == 10
  {
  }

  /** 1 for an ace, else 0. */
  function AceValue(v: Value): (r: nat)
    ensures r <= 1
  {
    if v == ACE then 1 else 0
  }

  /** What the rules, the dealer and the hashers read of a hand: its base
      score, its aces, its length and its split number. */
  datatype HandStats = HandStats(base: nat, aces: nat, len: nat, splitNumber: nat) {
    /** An ace can count as 11 without busting. */
    predicate IsSoft() {
      aces > 0 && base + 10 <= 21
    }

    function Score(): nat {
      if IsSoft() then base + 10 else base
    }

    /** The bookkeeping of `addCard`. */
    function Add(v: Value): HandStats
      requires v.IsRank()
    {
      HandStats(base + ScoreForValue(v), if v == ACE then aces + 1 else aces, len + 1, splitNumber)
    }
  }

  const EMPTY: HandStats := HandStats(0, 0, 0, 0)

  /** Soft means "counted 10 higher, still at most 21"; otherwise the score is the base. */
  lemma ScoreMeaning(h: HandStats)
    ensures h.IsSoft() <==> h.aces > 0 && h.base + 10 <= 21
    ensures h.IsSoft() ==> h.Score() == h.base + 10 && h.Score() <= 21
    ensures !h.IsSoft() ==> h.Score() == h.base
    ensures h.Score() > 21 ==> !h.IsSoft()
  {
  }

  /** Every card raises the base score, so the score of a hard hand and the
      base both grow strictly with each card. */
  lemma AddRaisesBase(h: HandStats, v: Value)
    requires v.IsRank()
    ensures h.Add(v).base > h.base
    ensures h.Add(v).Score() >= h.base + 1
  {
  }

  /** The repository's hand test: ten is hard 10, ten-ace soft 21, adding a
      two gives hard 13, adding a king hard 23. */
  lemma HandTestSequence()
    ensures EMPTY.Score() == 0 && EMPTY.len == 0 && !EMPTY.IsSoft()
    ensures EMPTY.Add(TEN).Score() == 10 && !EMPTY.Add(TEN).IsSoft()
    ensures EMPTY.Add(TEN).Add(ACE).Score() == 21 && EMPTY.Add(TEN).Add(ACE).IsSoft()
    ensures EMPTY.Add(TEN).Add(ACE).Add(TWO).Score() == 13 && !EMPTY.Add(TEN).Add(ACE).Add(TWO).IsSoft()
    ensures EMPTY.Add(TEN).Add(ACE).Add(TWO).Add(KING).Score() == 23
    ensures EMPTY.Add(TEN).Add(ACE).Add(TWO).Add(KING).len == 4
  {
    assert ScoreForValue(TEN) == 10 && ScoreForValue(ACE) == 1;
    assert ScoreForValue(TWO) == 2 && ScoreForValue(KING) == 10;
    assert EMPTY.Add(TEN) == HandStats(10, 0, 1, 0);
    assert EMPTY.Add(TEN).Add(ACE) == HandStats(11, 1, 2, 0);
    assert EMPTY.Add(TEN).Add(ACE).Add(TWO) == HandStats(13, 1, 3, 0);
    assert EMPTY.Add(TEN).Add(ACE).Add(TWO).Add(KING) == HandStats(23, 1, 4, 0);
  }

  predicate AllRanks(cards: seq<Card>) {
    forall i :: 0 <= i < |cards| ==> cards[i].v.IsRank()
  }

  /** The base score of a card; a joker, which no hand holds, adds nothing. */
  function CardScore(c: Card): nat {
    if c.v.IsRank() then ScoreForValue(c.v) else 0
  }

  function BaseSum(cards: seq<Card>): nat {
    if cards == [] then 0 else CardScore(cards[0]) + BaseSum(cards[1..])
  }

  function AceCount(cards: seq<Card>): nat {
    if cards == [] then 0 else AceValue(cards[0].v) + AceCount(cards[1..])
  }

  /** The bookkeeping fields a list of cards should have. */
  function StatsOf(cards: seq<Card>, splitNumber: nat): HandStats
    requires AllRanks(cards)
  {
    HandStats(BaseSum(cards), AceCount(cards), |cards|, splitNumber)
  }

  lemma {:induction false} SumsConcat(a: seq<Card>, b: seq<Card>)
    ensures BaseSum(a + b) == BaseSum(a) + BaseSum(b)
    ensures AceCount(a + b) == AceCount(a) + AceCount(b)
  {
    if a == [] {
      assert a + b == b;
    } else {
      assert (a + b)[1..] == a[1..] + b;
      SumsConcat(a[1..], b);
    }
  }

  lemma SumsSingle(c: Card)
    ensures BaseSum([c]) == CardScore(c) && AceCount([c]) == AceValue(c.v)
  {
    assert [c][1..] == [];
  }

  /** Appending a card does to the sums what `Add` does to the fields. */
  lemma StatsOfAppend(cards: seq<Card>, c: Card, k: nat)
    requires AllRanks(cards) && c.v.IsRank()
    ensures AllRanks(cards + [c])
    ensures StatsOf(cards + [c], k) == StatsOf(cards, k).Add(c.v)
  {
    SumsConcat(cards, [c]);
    SumsSingle(c);
    assert forall i :: 0 <= i < |cards| ==> (cards + [c])[i] == cards[i];
  }

  /** `swap_remove` of one card takes exactly that card out of the sums. */
  lemma SumsSwapRemove(cards: seq<Card>, i: nat)
    requires i < |cards|
    ensures BaseSum(SwapRemove(cards, i)) + CardScore(cards[i]) == BaseSum(cards)
    ensures AceCount(SwapRemove(cards, i)) + AceValue(cards[i].v) == AceCount(cards)
  {
    if i == |cards| - 1 {
      SumsSwapRemoveLast(cards);
    } else {
      SumsSwapRemoveInner(cards, i);
    }
  }

  /** Removing a card from a hand of ranks leaves a hand of ranks whose
      fields, with that card added back, are the original ones. */
  lemma StatsOfSwapRemove(cards: seq<Card>, i: nat, k: nat)
    requires i < |cards| && AllRanks(cards)
    ensures AllRanks(SwapRemove(cards, i))
    ensures StatsOf(SwapRemove(cards, i), k).Add(cards[i].v) == StatsOf(cards, k)
  {
    SwapRemoveFacts(cards, i);
    forall j | 0 <= j < |cards| - 1 ensures SwapRemove(cards, i)[j].v.IsRank() {
      if j == i { assert SwapRemove(cards, i)[j] == cards[|cards| - 1]; }
    }
    SumsSwapRemove(cards, i);
  }

  lemma SumsSwapRemoveLast(cards: seq<Card>)
    requires |cards| > 0
    ensures BaseSum(SwapRemove(cards, |cards| - 1)) + CardScore(cards[|cards| - 1]) == BaseSum(cards)
    ensures AceCount(SwapRemove(cards, |cards| - 1)) + AceValue(cards[|cards| - 1].v) == AceCount(cards)
  {
    var last := |cards| - 1;
    assert cards == cards[..last] + [cards[last]];
    SumsConcat(cards[..last], [cards[last]]);
    SumsSingle(cards[last]);
  }

  lemma SumsSwapRemoveInner(cards: seq<Card>, i: nat)
    requires i < |cards| - 1
    ensures BaseSum(SwapRemove(cards, i)) + CardScore(cards[i]) == BaseSum(cards)
    ensures AceCount(SwapRemove(cards, i)) + AceValue(cards[i].v) == AceCount(cards)
  {
    var last := |cards| - 1;
    var r := SwapRemove(cards, i);
    SwapRemoveShape(cards, i);
    BaseShuffle(cards, r, cards[..i], cards[i], cards[i + 1..last], cards[last]);
    AceShuffle(cards, r, cards[..i], cards[i], cards[i + 1..last], cards[last]);
  }

  lemma SwapRemoveShape(cards: seq<Card>, i: nat)
    requires i < |cards| - 1
    ensures cards == cards[..i] + [cards[i]] + (cards[i + 1..|cards| - 1] + [cards[|cards| - 1]])
    ensures SwapRemove(cards, i) == cards[..i] + [cards[|cards| - 1]] + cards[i + 1..|cards| - 1]
  {
  }

  lemma BaseShuffle(s: seq<Card>, r: seq<Card>, pre: seq<Card>, c: Card, mid: seq<Card>, tail: Card)
    requires s == pre + [c] + (mid + [tail])
    requires r == pre + [tail] + mid
    ensures BaseSum(r) + CardScore(c) == BaseSum(s)
  {
    SumsSingle(tail);
    SumsConcat(mid, [tail]);
    SumsThree(pre, c, mid + [tail]);
    SumsThree(pre, tail, mid);
  }

  lemma AceShuffle(s: seq<Card>, r: seq<Card>, pre: seq<Card>, c: Card, mid: seq<Card>, tail: Card)
    requires s == pre + [c] + (mid + [tail])
    requires r == pre + [tail] + mid
    ensures AceCount(r) + AceValue(c.v) == AceCount(s)
  {
    SumsSingle(tail);
    SumsConcat(mid, [tail]);
    SumsThree(pre, c, mid + [tail]);
    SumsThree(pre, tail, mid);
  }

  lemma SumsThree(a: seq<Card>, c: Card, b: seq<Card>)
    ensures BaseSum(a + [c] + b) == BaseSum(a) + CardScore(c) + BaseSum(b)
    ensures AceCount(a + [c] + b) == AceCount(a) + AceValue(c.v) + AceCount(b)
  {
    SumsSingle(c);
    SumsConcat(a, [c]);
    SumsConcat(a + [c], b);
  }

  /** Removing the card just added (the first equal card, by `swap_remove`)
      gives back the original cards in their original order. */
  lemma AddThenRemove(cards: seq<Card>, c: Card)
    ensures c in cards + [c]
    ensures SwapRemove(cards + [c], IndexOf(cards + [c], c)) == cards
  {
    var s := cards + [c];
    var i := IndexOf(s, c);
    var r := SwapRemove(s, i);
    SwapRemoveFacts(s, i);
    assert |r| == |cards|;
    forall j | 0 <= j < |cards| ensures r[j] == cards[j] {
      if j == i {
        assert r[j] == s[|s| - 1] == c == s[i];
      }
    }
  }

  /** The hand as the repository keeps it. */
  class BJHandImpl {
    var score: nat
    var aceCount: nat
    var splitNumber: nat
    var numCards: nat
    var cards: seq<Card>

    /** The bookkeeping fields agree with the cards held. */
    ghost predicate Valid()
      reads this
    {
      AllRanks(cards) && StatsOf(cards, splitNumber) == Stats()
    }

    function Stats(): HandStats
      reads this
    {
      HandStats(score, aceCount, numCards, splitNumber)
    }

    function Score(): nat
      reads this
    {
      Stats().Score()
    }

    predicate IsSoft()
      reads this
    {
      Stats().IsSoft()
    }

    /** `len` checks that the card counter matches the cards held. */
    function Len(): (n: nat)
      reads this
      requires Valid()
      ensures n == |cards|
    {
      numCards
    }

    constructor ()
      ensures Valid() && cards == [] && Stats() == EMPTY
    {
      score, aceCount, splitNumber, numCards := 0, 0, 0, 0;
      cards := [];
    }

    method AddCard(c: Card)
      requires Valid() && c.v.IsRank()
      modifies this
      ensures Valid()
      ensures cards == old(cards) + [c]
      ensures Stats() == old(Stats()).Add(c.v)
    {
      StatsOfAppend(cards, c, splitNumber);
      score := score + ScoreForValue(c.v);
      numCards := numCards + 1;
      if c.v.Index() == ACE.Index() {
        IndexInjective(c.v, ACE);
        aceCount := aceCount + 1;
      }
      cards := cards + [c];
    }

    /** Takes out the first card equal to `c`. `found` is false exactly when
        no such card is held, where the repository aborts; the hand is then
        left as it was. When found, the fields are those that adding `c`
        back would restore. */
    method RemoveCard(c: Card) returns (found: bool)
      requires Valid()
      modifies this
      ensures Valid()
      ensures found <==> c in old(cards)
      ensures !found ==> cards == old(cards) && Stats() == old(Stats())
      ensures found ==> cards == SwapRemove(old(cards), IndexOf(old(cards), c))
      ensures found ==> c.v.IsRank() && Stats().Add(c.v) == old(Stats())
    {
      var i := 0;
      while i < |cards| && cards[i] != c
        invariant i <= |cards|
        invariant forall j :: 0 <= j < i ==> cards[j] != c
      {
        i := i + 1;
      }
      if i == |cards| {
        return false;
      }
      assert IndexOf(cards, c) == i;
      StatsOfSwapRemove(cards, i, splitNumber);
      score := score - ScoreForValue(c.v);
      numCards := numCards - 1;
      if c.v.Index() == ACE.Index() {
        IndexInjective(c.v, ACE);
        aceCount := aceCount - 1;
      }
      cards := SwapRemove(cards, i);
      return true;
    }
  }
}

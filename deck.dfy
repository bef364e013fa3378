/** `cards_in_deck`: fills a card vector with whole decks, suit by suit and
    value by value, and hands the same vector back. */
module Deck {
  import opened Cards
  import opened Options
  import opened Shoe

  /** A growable vector of cards. Several owners may hold it at once (the
      deck builder fills it, a shoe then pops from it), so it is an object. */
  class CardVec {
    var elems: seq<Card>

    constructor ()
      ensures elems == []
    {
      elems := [];
    }

    method Clear()
      modifies this
      ensures elems == []
    {
      elems := [];
    }

    method Push(c: Card)
      modifies this
      ensures elems == old(elems) + [c]
    {
      elems := elems + [c];
    }

    /** Takes off the last card, or None when the vector is empty. */
    method Pop() returns (r: Option<Card>)
      modifies this
      ensures old(elems) == [] ==> r.None? && elems == []
      ensures old(elems) != [] ==> r == Some(old(elems)[|old(elems)| - 1]) && elems + [r.value] == old(elems)
    {
      if elems == [] {
        r := None;
      } else {
        r := Some(elems[|elems| - 1]);
        elems := elems[..|elems| - 1];
      }
    }
  }

  /** The card at position `k` of one deck: the suits in `SUITS` order,
      each with the thirteen values in `VALUES` order. */
  function CardAt(k: nat): (c: Card)
    requires k < 52
    ensures c.v.IsRank()
  {
    Card(ValueAt(k % 13), SuitAt(k / 13))
  }

  /** One deck, in the order `cards_in_deck` lays it out. */
  function OneDeck(): (d: seq<Card>)
    ensures |d| == 52
  {
    seq(52, k requires 0 <= k < 52 => CardAt(k))
  }

  /** `n` copies of `d`, one after another. */
  function Repeat(d: seq<Card>, n: nat): seq<Card> {
    if n == 0 then [] else Repeat(d, n - 1) + d
  }

  /** `n` decks, one after another. */
  function DeckCards(n: nat): (d: seq<Card>)
    ensures |d| == 52 * n
  {
    DeckLength(n);
    Repeat(OneDeck(), n)
  }

  lemma {:induction false} DeckLength(n: nat)
    ensures |Repeat(OneDeck(), n)| == 52 * n
  {
    if n > 0 {
      DeckLength(n - 1);
    }
  }

  /** Quotient and remainder by 13 of `x` written as `13*q + r`. */
  lemma DivMod13(x: nat, q: nat, r: nat)
    requires r < 13 && x == 13 * q + r
    ensures x / 13 == q && x % 13 == r
  {
  }

  /** Position `13*j + m` of a deck holds value `m` of suit `j`. */
  lemma PositionOf(j: nat, m: nat)
    requires j < 4 && m < 13
    ensures OneDeck()[13 * j + m] == Card(VALUES[m], SUITS[j])
  {
    DivMod13(13 * j + m, j, m);
  }

  /** The card `cards_in_deck` pushes for suit `j` and value `m` extends
      the deck under way by one. */
  lemma NextCard(j: nat, m: nat)
    requires j < 4 && m < 13
    ensures OneDeck()[..13 * j + m] + [Card(VALUES[m], SUITS[j])] == OneDeck()[..13 * j + m + 1]
  {
    PositionOf(j, m);
  }

  /** A whole deck pushed after `i` decks makes `i + 1`. */
  lemma NextDeck(i: nat)
    ensures DeckCards(i) + OneDeck()[..13 * 4] == DeckCards(i + 1)
  {
    assert OneDeck()[..52] == OneDeck();
  }

  /** `cards_in_deck(numDecks, ret)`: clears `ret`, then for each deck,
      each suit in `SUITS` order and each value in `VALUES` order pushes
      that card; returns `ret` itself. */
  method CardsInDeck(numDecks: nat, ret: CardVec) returns (r: CardVec)
    modifies ret
    ensures r == ret
    ensures ret.elems == DeckCards(numDecks)
  {
    ret.Clear();
    for i := 0 to numDecks
      invariant ret.elems == DeckCards(i)
    {
      ghost var before := ret.elems;
      assert before + OneDeck()[..0] == before;
      for j := 0 to 4
        invariant ret.elems == before + OneDeck()[..13 * j]
      {
        for m := 0 to 13
          invariant ret.elems == before + OneDeck()[..13 * j + m]
        {
          NextCard(j, m);
          ret.Push(Card(VALUES[m], SUITS[j]));
          assert ret.elems == before + (OneDeck()[..13 * j + m] + [Card(VALUES[m], SUITS[j])]);
        }
      }
      NextDeck(i);
    }
    r := ret;
  }

  /** Deck `d` of a run fills positions `52*d` to `52*d + 51`. */
  lemma {:induction false} DeckAt(n: nat, d: nat, k: nat)
    requires d < n && k < 52
    ensures 52 * d + k < |DeckCards(n)| && DeckCards(n)[52 * d + k] == OneDeck()[k]
  {
    if d < n - 1 {
      DeckAt(n - 1, d, k);
    }
  }

  /** Cards come deck by deck, then suit by suit in `SUITS` order, then
      value by value in `VALUES` order. */
  lemma DeckOrder(n: nat, d: nat, s: Suit, v: Value)
    requires d < n && v.IsRank()
    ensures 52 * d + 13 * s.Index() + v.Index() < |DeckCards(n)|
    ensures DeckCards(n)[52 * d + 13 * s.Index() + v.Index()] == Card(v, s)
  {
    DeckAt(n, d, 13 * s.Index() + v.Index());
    PositionOf(s.Index(), v.Index());
    ValueAtIndex(v);
    SuitAtIndex(s);
  }

  /** Within one deck, different positions hold different cards, and card
      `c` sits at `13*suit + value`. */
  lemma OneDeckLayout(c: Card, k: nat)
    requires c.v.IsRank() && k < 52
    ensures OneDeck()[k] == c <==> k == 13 * c.s.Index() + c.v.Index()
  {
    PositionOf(c.s.Index(), c.v.Index());
    ValueAtIndex(c.v);
    SuitAtIndex(c.s);
    if OneDeck()[k] == c {
      DivMod13(k, k / 13, k % 13);
    }
  }

  /** An element found at exactly one position occurs once. */
  lemma {:induction false} OccursOnce(s: seq<Card>, x: Card, p: nat)
    requires p < |s| && s[p] == x
    requires forall k :: 0 <= k < |s| && k != p ==> s[k] != x
    ensures multiset(s)[x] == 1
    decreases |s|
  {
    var last := |s| - 1;
    assert s == s[..last] + [s[last]];
    if p == last {
      assert x !in s[..last];
    } else {
      OccursOnce(s[..last], x, p);
    }
  }

  /** One deck holds every card once and no joker. */
  lemma OneDeckMultiplicity(c: Card)
    ensures multiset(OneDeck())[c] == if c.v.IsRank() then 1 else 0
  {
    if c.v.IsRank() {
      var p := 13 * c.s.Index() + c.v.Index();
      forall k | 0 <= k < 52 && k != p ensures OneDeck()[k] != c {
        OneDeckLayout(c, k);
      }
      OneDeckLayout(c, p);
      OccursOnce(OneDeck(), c, p);
    } else {
      assert c !in OneDeck();
    }
  }

  /** Copies of `c` in `a + b` are those in `a` and those in `b`. */
  lemma CountAppend(a: seq<Card>, b: seq<Card>, c: Card)
    ensures multiset(a + b)[c] == multiset(a)[c] + multiset(b)[c]
  {
  }

  /** `n` decks hold every card exactly `n` times, as many as the table
      `FullDeck(n)` holds. */
  lemma DeckMultiplicity(n: nat, c: Card)
    requires c.v.IsRank()
    ensures multiset(DeckCards(n))[c] == n == Held(FullDeck(n), c)
  {
    OneDeckMultiplicity(c);
    RepeatCount(OneDeck(), n, c);
  }

  /** A card held once by `d` is held `n` times by `n` copies of it. */
  lemma {:induction false} RepeatCount(d: seq<Card>, n: nat, c: Card)
    requires multiset(d)[c] == 1
    ensures multiset(Repeat(d, n))[c] == n
  {
    if n > 0 {
      RepeatCount(d, n - 1, c);
      CountAppend(Repeat(d, n - 1), d, c);
    }
  }

  /** No run of decks holds a joker. */
  lemma NoJoker(n: nat, c: Card)
    requires !c.v.IsRank()
    ensures c !in DeckCards(n)
  {
    assert c !in OneDeck();
    RepeatAbsent(OneDeck(), n, c);
  }

  lemma {:induction false} RepeatAbsent(d: seq<Card>, n: nat, c: Card)
    requires c !in d
    ensures c !in Repeat(d, n)
  {
    if n > 0 {
      RepeatAbsent(d, n - 1, c);
    }
  }

  /** The repository's deck test: two decks are 104 cards. */
  method TestDecks() returns (len: nat)
    ensures len == 104
  {
    var v := new CardVec();
    var d := CardsInDeck(2, v);
    len := |d.elems|;
  }
}

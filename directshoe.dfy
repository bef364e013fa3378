/** `DirectActualShoe`: a shoe over a borrowed card vector. It pops from the
    back of the vector and counts by scanning it; `remove` finds nothing and
    `insert` does nothing. */
module DirectShoe {
  import opened Cards
  import opened Options
  import opened Shoe
  import opened Deck

  /** The cards of `cs` whose value has the index of `v`. */
  function CountIn(cs: seq<Card>, v: Value): nat {
    if cs == [] then 0
    else CountIn(cs[..|cs| - 1], v) + (if cs[|cs| - 1].v.Index() == v.Index() then 1 else 0)
  }

  /** The count by value index is the number of copies of value `v` held,
      summed over the four suits. */
  lemma {:induction false} CountInBySuit(cs: seq<Card>, v: Value)
    requires v.IsRank()
    ensures CountIn(cs, v) == multiset(cs)[Card(v, SPADE)] + multiset(cs)[Card(v, CLUB)]
                              + multiset(cs)[Card(v, HEART)] + multiset(cs)[Card(v, DIAMOND)]
  {
    if cs != [] {
      var init := cs[..|cs| - 1];
      var c := cs[|cs| - 1];
      assert cs == init + [c];
      assert multiset(cs) == multiset(init) + multiset{c};
      CountInBySuit(init, v);
      if c.v.Index() == v.Index() {
        IndexInjective(c.v, v);
        assert c == Card(v, c.s);
        match c.s
        case SPADE =>
        case CLUB =>
        case HEART =>
        case DIAMOND =>
      } else {
        assert c.v != v;
      }
    }
  }

  /** `n` decks hold `4n` cards of each value, as `FullDeck(n)` says. */
  lemma DeckValueCount(n: nat, v: Value)
    requires v.IsRank()
    ensures CountIn(DeckCards(n), v) == CountOf(FullDeck(n), v)
  {
    CountInBySuit(DeckCards(n), v);
    DeckMultiplicity(n, Card(v, SPADE));
    DeckMultiplicity(n, Card(v, CLUB));
    DeckMultiplicity(n, Card(v, HEART));
    DeckMultiplicity(n, Card(v, DIAMOND));
    FullDeckFacts(n);
  }

  class DirectActualShoe {
    const cards: CardVec

    constructor (v: CardVec)
      ensures cards == v
    {
      cards := v;
    }

    /** `pop`: the last card of the vector, which loses it; None when the
        vector is empty. The popped value's count drops by one. */
    method Pop() returns (r: Option<Card>)
      modifies cards
      ensures old(cards.elems) == [] ==> r.None? && cards.elems == []
      ensures old(cards.elems) != [] ==> r == Some(old(cards.elems)[|old(cards.elems)| - 1])
      ensures r.Some? ==> cards.elems + [r.value] == old(cards.elems)
      ensures r.Some? ==> CountIn(cards.elems, r.value.v) + 1 == CountIn(old(cards.elems), r.value.v)
    {
      r := cards.Pop();
      if r.Some? {
        assert old(cards.elems)[..|old(cards.elems)| - 1] == cards.elems;
      }
    }

    /** `len`: the length of the vector. */
    function Len(): (n: nat)
      reads this, cards
      ensures n == |cards.elems|
    {
      |cards.elems|
    }

    /** `count(v)`: scans the vector for cards whose value index is `v`'s. */
    method Count(v: Value) returns (n: nat)
      ensures n == CountIn(cards.elems, v)
    {
      n := 0;
      for k := 0 to |cards.elems|
        invariant n == CountIn(cards.elems[..k], v)
      {
        assert cards.elems[..k + 1][..k] == cards.elems[..k];
        if cards.elems[k].v.Index() == v.Index() {
          n := n + 1;
        }
      }
      assert cards.elems[..|cards.elems|] == cards.elems;
    }

    /** `remove(v)`: never finds a card. */
    method Remove(v: Value) returns (r: Option<Card>)
      ensures r.None?
    {
      r := None;
    }

    /** `insert(c)`: leaves the vector as it is. */
    method Insert(c: Card)
      ensures cards.elems == old(cards.elems)
    {
    }
  }

  /** The repository's test: a shoe over an empty vector has length 0.
      The model adds its own checks beside it: over the vector
      `cards_in_deck(1, _)` fills, the shoe holds 52 cards, four aces and
      four kings. */
  method TestDirect() returns (emptyLen: nat, deckLen: nat, aces: nat, kings: nat)
    ensures emptyLen == 0 && deckLen == 52 && aces == 4 && kings == 4
  {
    var v := new CardVec();
    var ds := new DirectActualShoe(v);
    emptyLen := ds.Len();

    var v2 := new CardVec();
    var d := CardsInDeck(1, v2);
    var ds2 := new DirectActualShoe(d);
    deckLen := ds2.Len();
    aces := ds2.Count(ACE);
    kings := ds2.Count(KING);
    DeckValueCount(1, ACE);
    DeckValueCount(1, KING);
    FullDeckFacts(1);
  }
}

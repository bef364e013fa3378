/** Card primitives: the thirteen ranks (plus the joker constant), the four
    suits with their colours, cards as (value, suit) pairs, and the five
    player actions. */
module Cards {

  /** A card value. The repository keeps a description and an index per
      value; each constant is one constructor here, and `Index`/`Desc`
      return the stored fields. */
  datatype Value = ACE | TWO | THREE | FOUR | FIVE | SIX | SEVEN | EIGHT | NINE
                 | TEN | JACK | QUEEN | KING | JOKER
  {
    function Index(): (i: nat)
      ensures i <= 13
      ensures i == 13 <==> this == JOKER
    {
      match this
      case ACE => 0
      case TWO => 1
      case THREE => 2
      case FOUR => 3
      case FIVE => 4
      case SIX => 5
      case SEVEN => 6
      case EIGHT => 7
      case NINE => 8
      case TEN => 9
      case JACK => 10
      case QUEEN => 11
      case KING => 12
      case JOKER => 13
    }

    function Desc(): string {
      match this
      case ACE => "ace"
      case TWO => "two"
      case THREE => "three"
      case FOUR => "four"
      case FIVE => "five"
      case SIX => "six"
      case SEVEN => "seven"
      case EIGHT => "eight"
      case NINE => "nine"
      case TEN => "ten"
      case JACK => "jack"
      case QUEEN => "queen"
      case KING => "king"
      case JOKER => "joker"
    }

    /** A value that a deck holds: every value except the joker. */
    predicate IsRank()
      ensures IsRank() <==> Index() < 13
    {
      this != JOKER
    }
  }

  /** The thirteen ranks of a deck, in index order. */
  const VALUES: seq<Value> :=
    [ACE, TWO, THREE, FOUR, FIVE, SIX, SEVEN, EIGHT, NINE, TEN, JACK, QUEEN, KING]

  /** The value whose index is `i`, for a rank index. */
  function ValueAt(i: nat): (v: Value)
    requires i < 13
    ensures v.Index() == i && v.IsRank()
    ensures v in VALUES
  {
    VALUES[i]
  }

  /** `VALUES` holds each rank exactly once, at its own index, and no joker. */
  lemma ValuesIndexed()
    ensures |VALUES| == 13
    ensures forall i :: 0 <= i < 13 ==> VALUES[i].Index() == i
    ensures forall v: Value :: v in VALUES <==> v.IsRank()
    ensures JOKER !in VALUES && KING.Index() == 12 && JOKER.Index() == 13
  {
  }

  /** Every entry of `VALUES` is a rank. */
  lemma ValuesAreRanks()
    ensures |VALUES| == 13 && forall i :: 0 <= i < |VALUES| ==> VALUES[i].IsRank()
  {
  }

  /** Each rank sits in `VALUES` at its index. */
  lemma ValueAtIndex(v: Value)
    requires v.IsRank()
    ensures ValueAt(v.Index()) == v
  {
  }

  /** Distinct values have distinct descriptions. */
  lemma DescInjective(a: Value, b: Value)
    requires a.Desc() == b.Desc()
    ensures a == b
  {
  }

  /** Distinct values have distinct indices. */
  lemma IndexInjective(a: Value, b: Value)
    requires a.Index() == b.Index()
    ensures a == b
  {
  }

  datatype Color = BLACK | RED {
    function Desc(): string {
      match this
      case BLACK => "black"
      case RED => "red"
    }
  }

  datatype Suit = SPADE | CLUB | HEART | DIAMOND {
    function Index(): (i: nat)
      ensures i < 4
    {
      match this
      case SPADE => 0
      case CLUB => 1
      case HEART => 2
      case DIAMOND => 3
    }

    function Desc(): string {
      match this
      case SPADE => "spade"
      case CLUB => "club"
      case HEART => "heart"
      case DIAMOND => "diamond"
    }

    function Color(): Color {
      match this
      case SPADE => BLACK
      case CLUB => BLACK
      case HEART => RED
      case DIAMOND => RED
    }
  }

  /** The four suits, in index order. */
  const SUITS: seq<Suit> := [SPADE, CLUB, HEART, DIAMOND]

  function SuitAt(i: nat): (s: Suit)
    requires i < 4
    ensures s.Index() == i
  {
    SUITS[i]
  }

  /** Each suit sits in `SUITS` at its index. */
  lemma SuitAtIndex(s: Suit)
    ensures SuitAt(s.Index()) == s
  {
  }

  /** `SUITS` holds each suit once at its own index; spades and clubs are
      black, hearts and diamonds red, with the repository's descriptions. */
  lemma SuitsIndexed()
    ensures |SUITS| == 4
    ensures forall i :: 0 <= i < 4 ==> SUITS[i].Index() == i
    ensures forall s: Suit :: s in SUITS && SuitAt(s.Index()) == s
    ensures SPADE.Index() == 0
    ensures SPADE.Color() == BLACK && CLUB.Color() == BLACK
    ensures HEART.Color() == RED && DIAMOND.Color() == RED
    ensures SPADE.Desc() == "spade" && CLUB.Desc() == "club"
    ensures HEART.Desc() == "heart" && DIAMOND.Desc() == "diamond"
    ensures SPADE.Color().Desc() == "black" && HEART.Color().Desc() == "red"
  {
    forall s: Suit ensures s in SUITS && SuitAt(s.Index()) == s {
      match s
      case SPADE =>
      case CLUB =>
      case HEART =>
      case DIAMOND =>
    }
  }

  /** A card: a value and a suit. */
  datatype Card = Card(v: Value, s: Suit)

  /** The player's actions, in the repository's declaration order. */
  datatype BJAction = HIT | STAND | DOUBLE | SPLIT | SURRENDER
}

/** Shoes built from pickers: a value picker chooses a card's value and one
    suit picker per value chooses its suit. The deck pickers wrap a
    `RandomItemPicker` (per-value counts for the value picker, per-suit
    counts for each suit picker); the infinite pickers always offer every
    value and suit; the cycling suit picker hands out the suits in turn.
    Random numbers are parameters (`drawValue`, `drawSuit`). */
module RandomShoe {
  import opened Cards
  import opened Seqs
  import opened Options
  import opened Shoe
  import opened Picker

  /** A suit picker that cycles through the suits: each call advances a
      counter and hands out the suit at that counter modulo four. */
  class CycleSuitPicker {
    var suitIndex: nat

    constructor ()
      ensures suitIndex == 0
    {
      suitIndex := 0;
    }

    method Suit() returns (r: Option<Suit>)
      modifies this
      ensures suitIndex == old(suitIndex) + 1
      ensures r == Some(SuitAt(suitIndex % 4))
    {
      suitIndex := suitIndex + 1;
      r := Some(SUITS[suitIndex % 4]);
    }

    /** Inserting changes nothing. */
    method Insert(s: Suit)
      modifies this
      ensures suitIndex == old(suitIndex)
    {
    }

    function Count(s: Suit): (n: nat)
      ensures n == 1
    {
      1
    }

    method Remove(s: Suit) returns (r: Option<Suit>)
      ensures r == Some(s)
    {
      SuitsIndexed();
      r := Some(SUITS[s.Index()]);
    }

    function Len(): (n: nat)
      ensures n == 4
    {
      4
    }
  }

  /** The suits handed out by turns `1 .. i` of a cycle started at `k`. */
  function CycleSuits(k: nat, i: nat): set<Suit> {
    if i == 0 then {} else CycleSuits(k, i - 1) + {SuitAt((k + i) % 4)}
  }

  /** Any four successive turns of the cycle hand out all four suits. */
  lemma CycleCoversSuits(k: nat)
    ensures CycleSuits(k, 4) == {SPADE, CLUB, HEART, DIAMOND}
  {
    assert CycleSuits(k, 1) == {SuitAt((k + 1) % 4)};
    assert CycleSuits(k, 2) == {SuitAt((k + 1) % 4), SuitAt((k + 2) % 4)};
    assert CycleSuits(k, 3) == {SuitAt((k + 1) % 4), SuitAt((k + 2) % 4), SuitAt((k + 3) % 4)};
    assert CycleSuits(k, 4) == {SuitAt((k + 1) % 4), SuitAt((k + 2) % 4), SuitAt((k + 3) % 4), SuitAt((k + 4) % 4)};
    var m := k % 4;
    assert (k + 4) % 4 == m;
    if m == 0 {
      assert (k + 1) % 4 == 1 && (k + 2) % 4 == 2 && (k + 3) % 4 == 3;
    } else if m == 1 {
      assert (k + 1) % 4 == 2 && (k + 2) % 4 == 3 && (k + 3) % 4 == 0;
    } else if m == 2 {
      assert (k + 1) % 4 == 3 && (k + 2) % 4 == 0 && (k + 3) % 4 == 1;
    } else {
      assert (k + 1) % 4 == 0 && (k + 2) % 4 == 1 && (k + 3) % 4 == 2;
    }
  }

  /** The repository's cycling-picker test: four draws give four distinct
      suits and the picker reports four suits. */
  method TestCycleSuitPicker() returns (seen: set<Suit>, len: nat)
    ensures seen == {SPADE, CLUB, HEART, DIAMOND} && len == 4
  {
    var p := new CycleSuitPicker();
    seen := {};
    var i := 0;
    while i < 4
      invariant 0 <= i <= 4 && p.suitIndex == i
      invariant seen == CycleSuits(0, i)
    {
      var s := p.Suit();
      seen := seen + {s.value};
      i := i + 1;
    }
    CycleCoversSuits(0);
    len := p.Len();
  }

  /** The infinite shoe's value picker: a uniform value, four of each,
      fifty-two in all, and nothing ever runs out. */
  datatype RandomValuePicker = RandomValuePicker {
    function Value(draw: nat): (r: Option<Value>)
      ensures r.Some? && r.value.IsRank() && r.value.Index() == draw % 13
    {
      Some(VALUES[draw % 13])
    }

    function Count(v: Value): (n: nat)
      ensures n == 4
    {
      4
    }

    function Remove(v: Value): (r: Option<Value>)
      requires v.IsRank()
      ensures r == Some(v)
    {
      ValueAtIndex(v);
      Some(VALUES[v.Index()])
    }

    function Len(): (n: nat)
      ensures n == 52
    {
      52
    }
  }

  /** The infinite shoe's suit picker. */
  datatype RandomSuitPicker = RandomSuitPicker {
    function Suit(draw: nat): (r: Option<Suit>)
      ensures r.Some? && r.value.Index() == draw % 4
    {
      Some(SUITS[draw % 4 % 4])
    }

    function Count(s: Suit): (n: nat)
      ensures n == 1
    {
      1
    }

    function Remove(s: Suit): (r: Option<Suit>)
      ensures r == Some(s)
    {
      SuitsIndexed();
      Some(SUITS[s.Index()])
    }

    function Len(): (n: nat)
      ensures n == 4
    {
      4
    }
  }

  /** `new_infinite_shoe`: a shoe over the infinite pickers. It never
      changes, so it is a value; `insert` gives back the same shoe. */
  datatype InfiniteShoe = InfiniteShoe(values: RandomValuePicker, suits: RandomSuitPicker) {
    function Pop(drawValue: nat, drawSuit: nat): (r: Option<Card>)
      ensures r.Some? && r.value.v.IsRank()
      ensures r.value.v.Index() == drawValue % 13 && r.value.s.Index() == drawSuit % 4
    {
      match values.Value(drawValue)
      case None => None
      case Some(v) =>
        match suits.Suit(drawSuit)
        case None => None
        case Some(s) => Some(Card(v, s))
    }

    function Len(): (n: nat)
      ensures n == 52
    {
      values.Len()
    }

    function Count(v: Value): (n: nat)
      ensures n == 4
    {
      values.Count(v)
    }

    function Remove(v: Value, drawSuit: nat): (r: Option<Card>)
      requires v.IsRank()
      ensures r.Some? && r.value.v == v && r.value.s.Index() == drawSuit % 4
    {
      match values.Remove(v)
      case None => None
      case Some(val) =>
        match suits.Suit(drawSuit)
        case None => None
        case Some(s) => Some(Card(val, s))
    }

    /** `insert(c)`: both infinite pickers ignore it, so the shoe is left
        as it was. The shoe has a single value, so this contract only
        records the no-op. */
    function Insert(c: Card): (r: InfiniteShoe)
      ensures r == this
    {
      this
    }
  }

  /** The infinite shoe looks, at every moment, like one full deck: its
      counts and length are those of `FullDeck(1)`, every card it pops or
      removes is one that deck holds, and inserting changes nothing. */
  lemma InfiniteIsFullDeck(sh: InfiniteShoe, v: Value, c: Card, drawValue: nat, drawSuit: nat)
    requires v.IsRank()
    ensures sh.Count(v) == CountOf(FullDeck(1), v)
    ensures sh.Len() == Total(FullDeck(1))
    ensures Held(FullDeck(1), sh.Pop(drawValue, drawSuit).value) == 1
    ensures sh.Remove(v, drawSuit).value.v == v && Held(FullDeck(1), sh.Remove(v, drawSuit).value) == 1
    ensures sh.Insert(c) == sh
  {
    FullDeckFacts(1);
  }

  /** The value counts `vc` are the row sums of the table `t`. */
  ghost predicate Linked(vc: seq<nat>, t: Table) {
    WellFormed(t) && |vc| == 13 && forall i :: 0 <= i < 13 ==> vc[i] == Sum(t[i])
  }

  /** When the value counts are the row sums of a table, they add up to
      its total. */
  lemma LinkedTotal(vc: seq<nat>, t: Table)
    requires Linked(vc, t)
    ensures Total(t) == Sum(vc)
  {
    assert RowSums(t) == vc;
  }

  /** ... and each value count is that value's count in the table. */
  lemma LinkedCount(vc: seq<nat>, t: Table, v: Value)
    requires Linked(vc, t) && v.IsRank()
    ensures CountOf(t, v) == vc[v.Index()]
  {
  }

  /** One full deck: four cards of each value, one of each card. */
  lemma FullDeckLinked()
    ensures Linked(seq(13, _ => 4), FullDeck(1))
    ensures forall i :: 0 <= i < 13 ==> FullDeck(1)[i] == seq(4, _ => 1)
  {
    SumConstant(4, 1);
  }

  /** Taking one card of rank index `i` and suit index `j` from both the
      value counts and the table keeps them linked. */
  lemma LinkedTake(vc: seq<nat>, t: Table, i: nat, j: nat)
    requires Linked(vc, t) && i < 13 && j < 4 && t[i][j] > 0
    ensures vc[i] > 0
    ensures Linked(vc[i := vc[i] - 1], t[i := t[i][j := t[i][j] - 1]])
  {
    SumElement(t[i], j);
    SumUpdate(t[i], j, t[i][j] - 1);
  }

  /** Putting one card back into both keeps them linked. */
  lemma LinkedPut(vc: seq<nat>, t: Table, i: nat, j: nat)
    requires Linked(vc, t) && i < 13 && j < 4
    ensures Linked(vc[i := vc[i] + 1], t[i := t[i][j := t[i][j] + 1]])
  {
    SumUpdate(t[i], j, t[i][j] + 1);
  }

  // The deck pickers: `RandomDeckValuePicker` and `RandomDeckSuitPicker`
  // each wrap one `RandomItemPicker`, counting values (13 entries) or
  // suits (4 entries), and translate between indices and values or suits.

  /** `RandomDeckValuePicker::value`: a value drawn by count, one fewer of
      it left; None, changing nothing, once the picker is empty. */
  method DeckValuePick(p: RandomItemPicker, draw: nat) returns (r: Option<Value>)
    requires p.Valid() && |p.counts| == 13
    modifies p
    ensures p.Valid() && |p.counts| == 13
    ensures r.None? <==> old(p.size) == 0
    ensures r.None? ==> p.counts == old(p.counts)
    ensures r.Some? ==> r.value.IsRank() && old(p.counts)[r.value.Index()] > 0
    ensures r.Some? ==> p.counts == old(p.counts)[r.value.Index() := old(p.counts)[r.value.Index()] - 1]
  {
    var found := p.Value(draw);
    match found
    case None => r := None;
    case Some(c) => r := Some(ValueAt(c));
  }

  /** `RandomDeckValuePicker::remove`: one fewer of `v`, giving `v` back,
      while any is left; None, changing nothing, otherwise. */
  method DeckValueRemove(p: RandomItemPicker, v: Value) returns (r: Option<Value>)
    requires p.Valid() && |p.counts| == 13 && v.IsRank()
    modifies p
    ensures p.Valid() && |p.counts| == 13
    ensures r.Some? <==> old(p.counts)[v.Index()] > 0
    ensures r.None? ==> p.counts == old(p.counts)
    ensures r.Some? ==> r.value == v && p.counts == old(p.counts)[v.Index() := old(p.counts)[v.Index()] - 1]
  {
    var removed := p.Remove(v.Index());
    if removed {
      ValueAtIndex(v);
      r := Some(ValueAt(v.Index()));
    } else {
      r := None;
    }
  }

  /** `RandomDeckValuePicker::insert`: one more of `v`. It runs the
      corrected picker insert, which lists `v` again only when it is not
      listed already, so a fair picker stays fair. */
  method DeckValueInsert(p: RandomItemPicker, v: Value)
    requires p.Valid() && |p.counts| == 13 && v.IsRank()
    modifies p
    ensures p.Valid() && p.counts == old(p.counts)[v.Index() := old(p.counts)[v.Index()] + 1]
    ensures p.nonZero == if v.Index() !in old(p.nonZero) then old(p.nonZero) + [v.Index()] else old(p.nonZero)
    ensures old(p.Fair()) ==> p.Fair()
  {
    p.Insert(v.Index());
  }

  /** `RandomDeckSuitPicker::suit`: a suit drawn by count, one fewer of it
      left; None, changing nothing, once the picker is empty. */
  method DeckSuitPick(p: RandomItemPicker, draw: nat) returns (r: Option<Suit>)
    requires p.Valid() && |p.counts| == 4
    modifies p
    ensures p.Valid() && |p.counts| == 4
    ensures r.None? <==> old(p.size) == 0
    ensures r.None? ==> p.counts == old(p.counts)
    ensures r.Some? ==> old(p.counts)[r.value.Index()] > 0
    ensures r.Some? ==> p.counts == old(p.counts)[r.value.Index() := old(p.counts)[r.value.Index()] - 1]
  {
    var found := p.Value(draw);
    match found
    case None => r := None;
    case Some(c) => r := Some(SuitAt(c));
  }

  /** `RandomDeckSuitPicker::insert`: one more of `s`, through the
      corrected picker insert as for values. */
  method DeckSuitInsert(p: RandomItemPicker, s: Suit)
    requires p.Valid() && |p.counts| == 4
    modifies p
    ensures p.Valid() && p.counts == old(p.counts)[s.Index() := old(p.counts)[s.Index()] + 1]
    ensures p.nonZero == if s.Index() !in old(p.nonZero) then old(p.nonZero) + [s.Index()] else old(p.nonZero)
    ensures old(p.Fair()) ==> p.Fair()
  {
    p.Insert(s.Index());
  }

  /** `GenericDirectShoe` over the deck pickers (`new_random_shoe`): a
      value picker counting the cards of each value and, per value, a suit
      picker counting the cards of each suit. */
  class GenericDirectShoe {
    const valuePicker: RandomItemPicker
    const suitPickers: seq<RandomItemPicker>
    /** The shoe's contents: row `i` of the table is the counts of value
        `i`'s suit picker. */
    ghost var table: Table
    ghost const Repr: set<object>

    /** The pickers are distinct objects and make up `Repr`. */
    ghost predicate Frame() {
      |suitPickers| == 13
      && valuePicker in Repr && this !in Repr
      && (forall i :: 0 <= i < 13 ==> suitPickers[i] in Repr)
      && (forall i :: 0 <= i < 13 ==> suitPickers[i] != valuePicker)
      && (forall i, j :: 0 <= i < j < 13 ==> suitPickers[i] != suitPickers[j])
    }

    /** Every picker is consistent, the table records the suit pickers'
        counts, and the value picker's count for each value is the number
        of cards that value's suit picker holds. */
    ghost predicate Valid()
      reads this, Repr
    {
      Frame()
      && valuePicker.Valid()
      && (forall i :: 0 <= i < 13 ==> suitPickers[i].Valid())
      && Linked(valuePicker.counts, table)
      && (forall i :: 0 <= i < 13 ==> suitPickers[i].counts == table[i])
    }

    /** `new_random_shoe`: one full deck. */
    constructor ()
      ensures Valid() && fresh(Repr)
      ensures table == FullDeck(1)
    {
      var vp := new RandomItemPicker(4, 13);
      var sp: seq<RandomItemPicker> := [];
      ghost var rep: set<object> := {vp};
      for i := 0 to 13
        invariant |sp| == i && fresh(rep) && vp in rep
        invariant forall j :: 0 <= j < i ==> sp[j] in rep && sp[j] != vp
        invariant forall j, k :: 0 <= j < k < i ==> sp[j] != sp[k]
        invariant forall j :: 0 <= j < i ==> sp[j].Valid() && sp[j].counts == seq(4, _ => 1)
        invariant vp.Valid() && vp.counts == seq(13, _ => 4)
      {
        var p := new RandomItemPicker(1, 4);
        sp := sp + [p];
        rep := rep + {p};
      }
      valuePicker := vp;
      suitPickers := sp;
      table := FullDeck(1);
      Repr := rep;
      new;
      FullDeckLinked();
    }

    /** `len`: the value picker's size, every card left. */
    function Len(): (n: nat)
      reads this, Repr
      requires Valid()
      ensures n == Total(table)
    {
      LinkedTotal(valuePicker.counts, table);
      valuePicker.Len()
    }

    /** `count(v)`: the value picker's count for `v`. */
    function Count(v: Value): (n: nat)
      reads this, Repr
      requires Valid() && v.IsRank()
      ensures n == CountOf(table, v)
    {
      LinkedCount(valuePicker.counts, table, v);
      valuePicker.Count(v.Index())
    }

    /** `pop`: draw a value, then a suit from that value's picker. */
    method Pop(drawValue: nat, drawSuit: nat) returns (r: Option<Card>)
      requires Valid()
      modifies this, Repr
      ensures Valid()
      ensures PopStep(old(table), r, table)
    {
      LinkedTotal(valuePicker.counts, table);
      var found := DeckValuePick(valuePicker, drawValue);
      match found
      case None =>
        r := None;
      case Some(v) =>
        var i := v.Index();
        var picker := suitPickers[i];
        var s := DeckSuitPick(picker, drawSuit);
        match s
        case None =>
          assert false;
        case Some(suit) =>
          LinkedTake(old(valuePicker.counts), table, i, suit.Index());
          var card := Card(v, suit);
          table := Take(table, card);
          r := Some(card);
          forall j | 0 <= j < 13 ensures suitPickers[j].Valid() && suitPickers[j].counts == table[j] {
            if j != i {
              assert suitPickers[j] != picker && suitPickers[j] != valuePicker;
            }
          }
    }

    /** `remove(v)`: take one card of value `v` from the value picker and,
        if there was one, draw its suit; None when no card of `v` is left. */
    method Remove(v: Value, drawSuit: nat) returns (r: Option<Card>)
      requires Valid() && v.IsRank()
      modifies this, Repr
      ensures Valid()
      ensures RemoveStep(old(table), v, r, table)
    {
      var i := v.Index();
      var picker := suitPickers[i];
      ghost var vc := valuePicker.counts;
      LinkedCount(vc, table, v);
      assert picker.size == vc[i];
      var removed := DeckValueRemove(valuePicker, v);
      match removed
      case None =>
        r := None;
      case Some(val) =>
        var s := DeckSuitPick(picker, drawSuit);
        match s
        case None =>
          assert false;
        case Some(suit) =>
          LinkedTake(vc, table, i, suit.Index());
          var card := Card(v, suit);
          table := Take(table, card);
          r := Some(card);
          forall j | 0 <= j < 13 ensures suitPickers[j].Valid() && suitPickers[j].counts == table[j] {
            if j != i {
              assert suitPickers[j] != picker && suitPickers[j] != valuePicker;
            }
          }
    }

    /** `insert(c)`: give the card back to both pickers. */
    method Insert(c: Card)
      requires Valid() && c.v.IsRank()
      modifies this, Repr
      ensures Valid()
      ensures InsertStep(old(table), c, table)
    {
      var i := c.v.Index();
      var picker := suitPickers[i];
      DeckValueInsert(valuePicker, c.v);
      DeckSuitInsert(picker, c.s);
      LinkedPut(old(valuePicker.counts), table, i, c.s.Index());
      table := Put(table, c);
      forall j | 0 <= j < 13 ensures suitPickers[j].Valid() && suitPickers[j].counts == table[j] {
        if j != i {
          assert suitPickers[j] != picker && suitPickers[j] != valuePicker;
        }
      }
    }
  }

  /** Every suit. */
  const ALL_SUITS: set<Suit> := {SPADE, CLUB, HEART, DIAMOND}

  /** The table after `i` of the four aces were taken, those of the suits
      in `gone`; fours and fives untouched. */
  ghost predicate AcesLeft(t: Table, i: nat, gone: set<Suit>) {
    WellFormed(t)
    && CountOf(t, ACE) == 4 - i && Total(t) == 52 - i
    && (forall s: Suit :: Held(t, Card(ACE, s)) == if s in gone then 0 else 1)
    && CountOf(t, FOUR) == 4 && CountOf(t, FIVE) == 4
    && (forall s: Suit :: Held(t, Card(FIVE, s)) == 1)
  }

  /** While an ace is left, `remove(ACE)` takes one of a suit not yet gone. */
  lemma AceTaken(t: Table, i: nat, gone: set<Suit>, r: Option<Card>, t': Table)
    requires i < 4 && AcesLeft(t, i, gone) && RemoveStep(t, ACE, r, t')
    ensures r.Some? && AcesLeft(t', i + 1, gone + {r.value.s})
  {
    var c := r.value;
    TakeFacts(t, c);
  }

  lemma AcesFull()
    ensures AcesLeft(FullDeck(1), 0, {})
  {
    var t := FullDeck(1);
    FullDeckFacts(1);
    assert CountOf(t, ACE) == 4 && CountOf(t, FOUR) == 4 && CountOf(t, FIVE) == 4;
    assert forall s: Suit :: Held(t, Card(ACE, s)) == 1 && Held(t, Card(FIVE, s)) == 1;
  }

  /** Once four aces were taken, all four suits are gone and no ace is left. */
  lemma AcesGone(t: Table, gone: set<Suit>)
    requires AcesLeft(t, 4, gone)
    ensures gone == ALL_SUITS
  {
    CountPositive(t, ACE);
    forall s: Suit ensures s in gone {
      assert Held(t, Card(ACE, s)) == 0;
    }
  }

  /** With no ace left, `remove(ACE)` finds nothing and changes nothing. */
  lemma NoAceLeft(t: Table, r: Option<Card>, t': Table)
    requires AcesLeft(t, 4, ALL_SUITS) && RemoveStep(t, ACE, r, t')
    ensures r.None? && t' == t
  {
    if r.Some? {
      assert false;
    }
  }

  /** The ace part of the single-deck test: a full deck holds 52 cards and
      4 aces; four removals of an ace each succeed, lower the ace count by
      one and give the four suits; a fifth removal gives None. */
  method RemoveAces(ds: GenericDirectShoe, draws: nat -> nat) returns (aceSuits: set<Suit>, fifth: Option<Card>)
    requires ds.Valid() && ds.table == FullDeck(1)
    modifies ds, ds.Repr
    ensures ds.Valid()
    ensures aceSuits == ALL_SUITS && fifth.None?
    ensures CountOf(ds.table, ACE) == 0 && Total(ds.table) == 48
    ensures CountOf(ds.table, FOUR) == 4 && CountOf(ds.table, FIVE) == 4
    ensures forall s: Suit :: Held(ds.table, Card(FIVE, s)) == 1
  {
    AcesFull();
    aceSuits := {};
    for i := 0 to 4
      invariant ds.Valid()
      invariant AcesLeft(ds.table, i, aceSuits)
    {
      ghost var t := ds.table;
      var r := ds.Remove(ACE, draws(i));
      AceTaken(t, i, aceSuits, r, ds.table);
      aceSuits := aceSuits + {r.value.s};
    }
    AcesGone(ds.table, aceSuits);
    ghost var t := ds.table;
    fifth := ds.Remove(ACE, draws(4));
    NoAceLeft(t, fifth, ds.table);
  }

  /** The table after `popped` pops, `fives` of them fives of the suits in `gone`. */
  ghost predicate FivesLeft(t: Table, popped: nat, fives: nat, gone: set<Suit>) {
    WellFormed(t)
    && popped + Total(t) == 48
    && fives + CountOf(t, FIVE) == 4
    && (forall s: Suit :: Held(t, Card(FIVE, s)) == if s in gone then 0 else 1)
  }

  /** A popped card counts as a five exactly when its name is a five's. */
  lemma PopTaken(t: Table, popped: nat, fives: nat, gone: set<Suit>, c: Card, isFive: bool)
    requires FivesLeft(t, popped, fives, gone) && c.v.IsRank() && Held(t, c) > 0
    requires isFive == (c.v.Desc() == FIVE.Desc())
    ensures isFive ==> FivesLeft(Take(t, c), popped + 1, fives + 1, gone + {c.s})
    ensures !isFive ==> FivesLeft(Take(t, c), popped + 1, fives, gone)
  {
    TakeFacts(t, c);
    if isFive {
      DescInjective(c.v, FIVE);
    }
  }

  /** An empty shoe after the loop: 48 pops, all four fives in four suits. */
  lemma FivesGone(t: Table, popped: nat, fives: nat, gone: set<Suit>)
    requires FivesLeft(t, popped, fives, gone) && Total(t) == 0
    ensures popped == 48 && fives == 4 && gone == ALL_SUITS && CountOf(t, FIVE) == 0
  {
    TotalZero(t);
    CountPositive(t, FIVE);
    forall s: Suit ensures s in gone {
      assert Held(t, Card(FIVE, s)) == 0;
    }
  }

  /** The popping part of the single-deck test: popping until the shoe is
      empty hands out 48 cards, among them the four fives in four suits. */
  method PopAll(ds: GenericDirectShoe, draws: nat -> nat) returns (popped: nat, fives: nat, fiveSuits: set<Suit>)
    requires ds.Valid() && Total(ds.table) == 48 && CountOf(ds.table, FIVE) == 4
    requires forall s: Suit :: Held(ds.table, Card(FIVE, s)) == 1
    modifies ds, ds.Repr
    ensures ds.Valid()
    ensures Total(ds.table) == 0 && CountOf(ds.table, FIVE) == 0
    ensures popped == 48 && fives == 4 && fiveSuits == ALL_SUITS
  {
    popped, fives, fiveSuits := 0, 0, {};
    var n := 0;
    while ds.Len() > 0
      invariant ds.Valid()
      invariant FivesLeft(ds.table, popped, fives, fiveSuits)
      decreases Total(ds.table)
    {
      ghost var t := ds.table;
      var item := ds.Pop(draws(2 * n), draws(2 * n + 1));
      n := n + 1;
      if item.None? {
        break;
      }
      var c := item.value;
      var isFive := c.v.Desc() == FIVE.Desc();
      PopTaken(t, popped, fives, fiveSuits, c, isFive);
      popped := popped + 1;
      if isFive {
        fives := fives + 1;
        fiveSuits := fiveSuits + {c.s};
      }
    }
    FivesGone(ds.table, popped, fives, fiveSuits);
  }

  /** `test_single_deck` on a shoe holding one full deck: the ace checks,
      then removing a four (47 left, 3 fours) and inserting it back (4
      fours), then popping everything. */
  method TestSingleDeck(ds: GenericDirectShoe, draws: nat -> nat)
    returns (aceSuits: set<Suit>, fifth: Option<Card>, lenAfterFour: nat, foursOut: nat, foursBack: nat,
             popped: nat, fives: nat, fiveSuits: set<Suit>)
    requires ds.Valid() && ds.table == FullDeck(1)
    modifies ds, ds.Repr
    ensures aceSuits == ALL_SUITS && fifth.None?
    ensures lenAfterFour == 47 && foursOut == 3 && foursBack == 4
    ensures popped == 48 && fives == 4 && fiveSuits == ALL_SUITS
  {
    aceSuits, fifth := RemoveAces(ds, draws);
    assert ds.Count(ACE) == 0;
    ghost var t := ds.table;
    CountPositive(t, FOUR);
    var c := ds.Remove(FOUR, draws(5));
    assert c.Some?;
    TakeFacts(t, c.value);
    lenAfterFour := ds.Len();
    foursOut := ds.Count(FOUR);
    ds.Insert(c.value);
    foursBack := ds.Count(FOUR);
    assert ds.Count(FIVE) == 4 && ds.Len() == 48;
    popped, fives, fiveSuits := PopAll(ds, n => draws(n + 6));
    assert ds.Count(FIVE) == 0;
  }

  /** `test_random`: the single-deck test passes on `new_random_shoe`,
      whatever the random draws. */
  method TestRandom(draws: nat -> nat)
    returns (aceSuits: set<Suit>, fifth: Option<Card>, lenAfterFour: nat, foursOut: nat, foursBack: nat,
             popped: nat, fives: nat, fiveSuits: set<Suit>)
    ensures aceSuits == ALL_SUITS && fifth.None?
    ensures lenAfterFour == 47 && foursOut == 3 && foursBack == 4
    ensures popped == 48 && fives == 4 && fiveSuits == ALL_SUITS
  {
    var ds := new GenericDirectShoe();
    aceSuits, fifth, lenAfterFour, foursOut, foursBack, popped, fives, fiveSuits := TestSingleDeck(ds, draws);
  }
}

/** The shoe contract: what every shoe's `pop`, `len`, `count`, `remove` and
    `insert` promise, stated over the shoe's abstract contents, and `fmt`,
    which describes a shoe by its per-value counts. */
module Shoe {
  import opened Cards
  import opened Seqs
  import opened Options

  /** The abstract contents of a shoe: for each rank index, the number of
      cards held of each suit (in suit index order). */
  type Table = seq<seq<nat>>

  predicate WellFormed(t: Table) {
    |t| == 13 && forall i :: 0 <= i < 13 ==> |t[i]| == 4
  }

  /** The copies of card `c` the shoe holds. */
  function Held(t: Table, c: Card): nat
    requires WellFormed(t) && c.v.IsRank()
  {
    t[c.v.Index()][c.s.Index()]
  }

  /** The number of cards of each value, by rank index. */
  function RowSums(t: seq<seq<nat>>): (r: seq<nat>)
    ensures |r| == |t|
    ensures forall i :: 0 <= i < |t| ==> r[i] == Sum(t[i])
  {
    if t == [] then [] else [Sum(t[0])] + RowSums(t[1..])
  }

  /** `count(v)`: the cards of value `v`, whatever their suit. */
  function CountOf(t: Table, v: Value): nat
    requires WellFormed(t) && v.IsRank()
  {
    Sum(t[v.Index()])
  }

  /** `len()`: every card the shoe holds. */
  function Total(t: Table): nat {
    Sum(RowSums(t))
  }

  /** The table after one copy of `c` leaves the shoe. */
  function Take(t: Table, c: Card): (r: Table)
    requires WellFormed(t) && c.v.IsRank() && Held(t, c) > 0
    ensures WellFormed(r)
  {
    var i := c.v.Index();
    t[i := t[i][c.s.Index() := t[i][c.s.Index()] - 1]]
  }

  /** The table after one copy of `c` enters the shoe. */
  function Put(t: Table, c: Card): (r: Table)
    requires WellFormed(t) && c.v.IsRank()
    ensures WellFormed(r)
  {
    var i := c.v.Index();
    t[i := t[i][c.s.Index() := t[i][c.s.Index()] + 1]]
  }

  /** Replacing one row of a table replaces one row sum. */
  lemma RowSumsUpdate(t: seq<seq<nat>>, i: nat, row: seq<nat>)
    requires i < |t|
    ensures RowSums(t[i := row]) == RowSums(t)[i := Sum(row)]
  {
  }

  /** A different card of a rank lies in a different cell of the table. */
  lemma CellsDistinct(c: Card, d: Card)
    requires c.v.IsRank() && d.v.IsRank() && d != c
    ensures d.v.Index() != c.v.Index() || d.s.Index() != c.s.Index()
  {
    if d.v.Index() == c.v.Index() {
      IndexInjective(d.v, c.v);
      if d.s.Index() == c.s.Index() {
        SuitIndexInjective(d.s, c.s);
      }
    }
  }

  /** A different rank lies in a different row. */
  lemma RowsDistinct(v: Value, w: Value)
    requires v != w
    ensures v.Index() != w.Index()
  {
    if v.Index() == w.Index() {
      IndexInjective(v, w);
    }
  }

  /** Taking a card removes exactly one copy of it: its value's count and
      the total drop by one, every other card and value is untouched, and
      putting it back restores the table. */
  lemma TakeFacts(t: Table, c: Card)
    requires WellFormed(t) && c.v.IsRank() && Held(t, c) > 0
    ensures Held(Take(t, c), c) == Held(t, c) - 1
    ensures forall d: Card :: d.v.IsRank() && d != c ==> Held(Take(t, c), d) == Held(t, d)
    ensures CountOf(Take(t, c), c.v) + 1 == CountOf(t, c.v)
    ensures forall w: Value :: w.IsRank() && w != c.v ==> CountOf(Take(t, c), w) == CountOf(t, w)
    ensures Total(Take(t, c)) + 1 == Total(t)
    ensures Put(Take(t, c), c) == t
  {
    var i := c.v.Index();
    var j := c.s.Index();
    var row := t[i][j := t[i][j] - 1];
    SumUpdate(t[i], j, t[i][j] - 1);
    RowSumsUpdate(t, i, row);
    SumUpdate(RowSums(t), i, Sum(row));
    forall d: Card | d.v.IsRank() && d != c ensures Held(Take(t, c), d) == Held(t, d) {
      CellsDistinct(c, d);
    }
    forall w: Value | w.IsRank() && w != c.v ensures CountOf(Take(t, c), w) == CountOf(t, w) {
      RowsDistinct(w, c.v);
    }
    assert row[j := t[i][j]] == t[i];
  }

  /** Putting a card adds exactly one copy of it, and taking it again
      restores the table. */
  lemma PutFacts(t: Table, c: Card)
    requires WellFormed(t) && c.v.IsRank()
    ensures Held(Put(t, c), c) == Held(t, c) + 1
    ensures CountOf(Put(t, c), c.v) == CountOf(t, c.v) + 1
    ensures forall w: Value :: w.IsRank() && w != c.v ==> CountOf(Put(t, c), w) == CountOf(t, w)
    ensures Total(Put(t, c)) == Total(t) + 1
    ensures Take(Put(t, c), c) == t
  {
    var i := c.v.Index();
    var j := c.s.Index();
    var row := t[i][j := t[i][j] + 1];
    SumUpdate(t[i], j, t[i][j] + 1);
    RowSumsUpdate(t, i, row);
    SumUpdate(RowSums(t), i, Sum(row));
    forall w: Value | w.IsRank() && w != c.v ensures CountOf(Put(t, c), w) == CountOf(t, w) {
      RowsDistinct(w, c.v);
    }
    assert row[j := t[i][j]] == t[i];
  }

  lemma SuitIndexInjective(a: Suit, b: Suit)
    requires a.Index() == b.Index()
    ensures a == b
  {
  }

  /** A shoe is empty exactly when it holds no copy of any card. */
  lemma TotalZero(t: Table)
    requires WellFormed(t)
    ensures Total(t) == 0 <==> forall c: Card :: c.v.IsRank() ==> Held(t, c) == 0
  {
    SumZero(RowSums(t));
    forall i | 0 <= i < 13 ensures Sum(t[i]) == 0 <==> forall j :: 0 <= j < 4 ==> t[i][j] == 0 {
      SumZero(t[i]);
    }
    if forall c: Card :: c.v.IsRank() ==> Held(t, c) == 0 {
      forall i, j | 0 <= i < 13 && 0 <= j < 4 ensures t[i][j] == 0 {
        assert Held(t, Card(ValueAt(i), SuitAt(j))) == 0;
      }
    }
  }

  /** A value is present exactly when some suit of it is. */
  lemma CountPositive(t: Table, v: Value)
    requires WellFormed(t) && v.IsRank()
    ensures CountOf(t, v) > 0 <==> exists s: Suit :: Held(t, Card(v, s)) > 0
    ensures CountOf(t, v) <= Total(t)
  {
    var i := v.Index();
    SumZero(t[i]);
    if CountOf(t, v) > 0 {
      var j :| 0 <= j < 4 && t[i][j] != 0;
      assert Held(t, Card(v, SuitAt(j))) > 0;
    }
    SumElement(RowSums(t), i);
  }

  // The shoe methods' promises, as relations between the contents before
  // (`t`), the result and the contents after (`t'`).

  /** `pop` hands out one card the shoe holds, or None only when it is empty. */
  predicate PopStep(t: Table, r: Option<Card>, t': Table)
    requires WellFormed(t)
  {
    match r
    case None => Total(t) == 0 && t' == t
    case Some(c) => c.v.IsRank() && Held(t, c) > 0 && t' == Take(t, c)
  }

  /** `remove(v)` hands out a card of value `v` while one is left, and
      returns None, changing nothing, once none is. */
  predicate RemoveStep(t: Table, v: Value, r: Option<Card>, t': Table)
    requires WellFormed(t) && v.IsRank()
  {
    match r
    case None => CountOf(t, v) == 0 && t' == t
    case Some(c) => c.v == v && Held(t, c) > 0 && t' == Take(t, c)
  }

  /** `insert(c)` adds one copy of `c`. */
  predicate InsertStep(t: Table, c: Card, t': Table)
    requires WellFormed(t) && c.v.IsRank()
  {
    t' == Put(t, c)
  }

  /** `n` full decks: every card held `n` times. */
  function FullDeck(n: nat): (t: Table)
    ensures WellFormed(t)
  {
    seq(13, _ => seq(4, _ => n))
  }

  /** `n` decks hold `n` copies of each card, `4n` of each value and `52n`
      cards in all. */
  lemma FullDeckFacts(n: nat)
    ensures forall c: Card :: c.v.IsRank() ==> Held(FullDeck(n), c) == n
    ensures forall v: Value :: v.IsRank() ==> CountOf(FullDeck(n), v) == 4 * n
    ensures Total(FullDeck(n)) == 52 * n
  {
    SumConstant(4, n);
    var sums := RowSums(FullDeck(n));
    assert sums == seq(13, _ => 4 * n);
    SumConstant(13, 4 * n);
  }

  // `fmt`: the counts of the thirteen values, each followed by its
  // description and a space.

  predicate IsDigit(ch: char) {
    '0' <= ch <= '9'
  }

  function DigitChar(d: nat): (ch: char)
    requires d < 10
    ensures IsDigit(ch)
  {
    ('0' as int + d) as char
  }

  /** `to_string` on an unsigned integer: its decimal digits, most
      significant first, with no leading zero. */
  function NatToString(n: nat): (s: string)
    ensures |s| > 0 && forall i :: 0 <= i < |s| ==> IsDigit(s[i])
    decreases n
  {
    if n < 10 then [DigitChar(n)] else NatToString(n / 10) + [DigitChar(n % 10)]
  }

  function DigitValue(ch: char): (d: nat)
    requires IsDigit(ch)
    ensures d < 10
  {
    ch as int - '0' as int
  }

  /** The number a string of decimal digits denotes. */
  function ParseNat(s: string): nat
    requires forall i :: 0 <= i < |s| ==> IsDigit(s[i])
  {
    if s == [] then 0 else ParseNat(s[..|s| - 1]) * 10 + DigitValue(s[|s| - 1])
  }

  /** Reading back the decimal digits gives the number. */
  lemma {:induction false} ParseNatToString(n: nat)
    ensures ParseNat(NatToString(n)) == n
    decreases n
  {
    if n >= 10 {
      var s := NatToString(n);
      assert s[..|s| - 1] == NatToString(n / 10);
      ParseNatToString(n / 10);
    }
  }

  /** The run of digits a string starts with. */
  function LeadingDigits(s: string): (r: string)
    ensures |r| <= |s|
  {
    if s == [] || !IsDigit(s[0]) then [] else [s[0]] + LeadingDigits(s[1..])
  }

  lemma {:induction false} LeadingDigitsOf(d: string, u: string)
    requires forall i :: 0 <= i < |d| ==> IsDigit(d[i])
    requires u != [] && !IsDigit(u[0])
    ensures LeadingDigits(d + u) == d
  {
    if d != [] {
      assert (d + u)[1..] == d[1..] + u;
      LeadingDigitsOf(d[1..], u);
    } else {
      assert d + u == u;
    }
  }

  /** A number followed by a non-digit can be read back unambiguously. */
  lemma NumberPrefix(a: nat, u: string, b: nat, w: string)
    requires u != [] && !IsDigit(u[0]) && w != [] && !IsDigit(w[0])
    requires NatToString(a) + u == NatToString(b) + w
    ensures a == b && u == w
  {
    LeadingDigitsOf(NatToString(a), u);
    LeadingDigitsOf(NatToString(b), w);
    ParseNatToString(a);
    ParseNatToString(b);
    assert u == (NatToString(a) + u)[|NatToString(a)|..];
  }

  lemma DescStartsWithLetter(v: Value)
    ensures |v.Desc()| > 0 && !IsDigit(v.Desc()[0])
  {
  }

  /** The description of the values `vs`, in order. */
  function DescribeOf(t: Table, vs: seq<Value>): string
    requires WellFormed(t) && forall i :: 0 <= i < |vs| ==> vs[i].IsRank()
  {
    if vs == [] then "" else NatToString(CountOf(t, vs[0])) + vs[0].Desc() + " " + DescribeOf(t, vs[1..])
  }

  /** One more value of the description. */
  lemma DescribeStep(t: Table, vs: seq<Value>, k: nat)
    requires WellFormed(t) && forall i :: 0 <= i < |vs| ==> vs[i].IsRank()
    requires k < |vs|
    ensures DescribeOf(t, vs[k..]) == NatToString(CountOf(t, vs[k])) + vs[k].Desc() + " " + DescribeOf(t, vs[k + 1..])
  {
    assert vs[k..][1..] == vs[k + 1..];
  }

  /** `fmt`: appends, for each value in `VALUES` order, its count, its
      description and a space. */
  method Fmt(t: Table) returns (s: string)
    requires WellFormed(t)
    ensures s == DescribeOf(t, VALUES)
  {
    ValuesAreRanks();
    s := "";
    assert VALUES[0..] == VALUES;
    for k := 0 to 13
      invariant s + DescribeOf(t, VALUES[k..]) == DescribeOf(t, VALUES)
    {
      var piece := NatToString(CountOf(t, VALUES[k])) + VALUES[k].Desc() + " ";
      DescribeStep(t, VALUES, k);
      Assoc(s, piece, DescribeOf(t, VALUES[k + 1..]));
      s := s + piece;
    }
  }

  lemma Assoc(a: string, b: string, c: string)
    ensures a + (b + c) == a + b + c
  {
  }

  lemma Assoc4(a: string, b: string, c: string, d: string)
    ensures a + b + c + d == a + (b + c + d)
  {
  }

  /** A count, a word and a space, followed by more text, can be read back. */
  lemma PieceSplit(x: nat, y: nat, desc: string, restA: string, restB: string)
    requires |desc| > 0 && !IsDigit(desc[0])
    requires NatToString(x) + desc + " " + restA == NatToString(y) + desc + " " + restB
    ensures x == y && restA == restB
  {
    var ua := desc + " " + restA;
    var ub := desc + " " + restB;
    Assoc4(NatToString(x), desc, " ", restA);
    Assoc4(NatToString(y), desc, " ", restB);
    NumberPrefix(x, ua, y, ub);
    assert restA == ua[|desc| + 1..];
    assert restB == ub[|desc| + 1..];
  }

  /** The description loses nothing: two shoes with the same description
      hold the same number of cards of every value described. */
  lemma {:induction false} DescribeInjective(a: Table, b: Table, vs: seq<Value>)
    requires WellFormed(a) && WellFormed(b) && forall i :: 0 <= i < |vs| ==> vs[i].IsRank()
    requires DescribeOf(a, vs) == DescribeOf(b, vs)
    ensures forall i :: 0 <= i < |vs| ==> CountOf(a, vs[i]) == CountOf(b, vs[i])
  {
    if vs != [] {
      DescStartsWithLetter(vs[0]);
      PieceSplit(CountOf(a, vs[0]), CountOf(b, vs[0]), vs[0].Desc(), DescribeOf(a, vs[1..]), DescribeOf(b, vs[1..]));
      DescribeInjective(a, b, vs[1..]);
      assert forall i :: 1 <= i < |vs| ==> vs[i] == vs[1..][i - 1];
    }
  }

  /** `fmt` tells shoes apart by their value counts. */
  lemma FmtInjective(a: Table, b: Table)
    requires WellFormed(a) && WellFormed(b)
    requires DescribeOf(a, VALUES) == DescribeOf(b, VALUES)
    ensures forall v: Value :: v.IsRank() ==> CountOf(a, v) == CountOf(b, v)
  {
    ValuesIndexed();
    DescribeInjective(a, b, VALUES);
    forall v: Value | v.IsRank() ensures CountOf(a, v) == CountOf(b, v) {
      assert VALUES[v.Index()] == v;
    }
  }
}

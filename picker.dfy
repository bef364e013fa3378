/** `RandomItemPicker`: a table of per-index counts, a list of the indices
    that may still have a positive count (pruned lazily) and the total
    size. A draw picks the cumulative position `draw % size` in list
    order. The random number is a parameter here. */
module Picker {
  import opened Seqs
  import opened Options

  /** The count of index `x`; indices outside the table count zero. */
  function CountAt(counts: seq<nat>, x: nat): nat {
    if x < |counts| then counts[x] else 0
  }

  /** The counts of the listed indices added up, repetitions included. */
  function ListedSum(counts: seq<nat>, l: seq<nat>): nat {
    if l == [] then 0 else ListedSum(counts, l[..|l| - 1]) + CountAt(counts, l[|l| - 1])
  }

  lemma ListedSumStep(counts: seq<nat>, l: seq<nat>, k: nat)
    requires k < |l|
    ensures ListedSum(counts, l[..k + 1]) == ListedSum(counts, l[..k]) + CountAt(counts, l[k])
  {
    assert l[..k + 1][..k] == l[..k];
  }

  lemma {:induction false} ListedSumMono(counts: seq<nat>, l: seq<nat>, i: nat, j: nat)
    requires i <= j <= |l|
    ensures ListedSum(counts, l[..i]) <= ListedSum(counts, l[..j])
    decreases j - i
  {
    if i < j {
      ListedSumStep(counts, l, j - 1);
      ListedSumMono(counts, l, i, j - 1);
    }
  }

  /** The cumulative search: the first listed index, from position `k`
      on, whose running total (starting at `acc`) passes `t`. */
  function FindFrom(counts: seq<nat>, l: seq<nat>, k: nat, acc: nat, t: nat): Option<nat>
    decreases |l| - k
  {
    if k >= |l| then None
    else if acc + CountAt(counts, l[k]) > t then Some(l[k])
    else FindFrom(counts, l, k + 1, acc + CountAt(counts, l[k]), t)
  }

  function Find(counts: seq<nat>, l: seq<nat>, t: nat): Option<nat> {
    FindFrom(counts, l, 0, 0, t)
  }

  /** Positions whose running total stays at or below `t` never stop the
      search. */
  lemma {:induction false} FindSkip(counts: seq<nat>, l: seq<nat>, k: nat, t: nat)
    requires k <= |l| && ListedSum(counts, l[..k]) <= t
    ensures Find(counts, l, t) == FindFrom(counts, l, k, ListedSum(counts, l[..k]), t)
  {
    if k == 0 {
      assert l[..0] == [];
    } else {
      ListedSumStep(counts, l, k - 1);
      FindSkip(counts, l, k - 1, t);
    }
  }

  /** The search stops at position `j` exactly when `t` falls in `j`'s
      interval of the running total: it finds something iff `t` is below
      the listed sum, and what it finds has a positive count. */
  lemma {:induction false} FindFromMeaning(counts: seq<nat>, l: seq<nat>, k: nat, t: nat)
    requires k <= |l| && ListedSum(counts, l[..k]) <= t
    ensures FindFrom(counts, l, k, ListedSum(counts, l[..k]), t).Some? <==> t < ListedSum(counts, l)
    ensures forall j :: k <= j < |l| && ListedSum(counts, l[..j]) <= t < ListedSum(counts, l[..j]) + CountAt(counts, l[j]) ==>
      FindFrom(counts, l, k, ListedSum(counts, l[..k]), t) == Some(l[j])
    ensures FindFrom(counts, l, k, ListedSum(counts, l[..k]), t).Some? ==>
      exists j :: k <= j < |l| && l[j] == FindFrom(counts, l, k, ListedSum(counts, l[..k]), t).value &&
        ListedSum(counts, l[..j]) <= t < ListedSum(counts, l[..j]) + CountAt(counts, l[j])
    decreases |l| - k
  {
    var acc := ListedSum(counts, l[..k]);
    if k == |l| {
      assert l[..k] == l;
    } else {
      ListedSumStep(counts, l, k);
      ListedSumMono(counts, l, k + 1, |l|);
      assert l[..|l|] == l;
      if acc + CountAt(counts, l[k]) <= t {
        FindFromMeaning(counts, l, k + 1, t);
        forall j | k < j < |l| ensures ListedSum(counts, l[..k + 1]) <= ListedSum(counts, l[..j]) {
          ListedSumMono(counts, l, k + 1, j);
        }
      } else {
        forall j | k < j < |l| ensures ListedSum(counts, l[..j]) > t {
          ListedSumMono(counts, l, k + 1, j);
        }
      }
    }
  }

  /** `find` summarised: a hit exactly below the listed sum, always on a
      listed index with a positive count, and at the position whose
      interval holds `t`. */
  lemma FindMeaning(counts: seq<nat>, l: seq<nat>, t: nat)
    ensures Find(counts, l, t).Some? <==> t < ListedSum(counts, l)
    ensures Find(counts, l, t).Some? ==> Find(counts, l, t).value in l && CountAt(counts, Find(counts, l, t).value) > 0
    ensures forall j :: 0 <= j < |l| && ListedSum(counts, l[..j]) <= t < ListedSum(counts, l[..j]) + CountAt(counts, l[j]) ==>
      Find(counts, l, t) == Some(l[j])
  {
    assert l[..0] == [];
    FindFromMeaning(counts, l, 0, t);
  }

  predicate NoDup(l: seq<nat>) {
    forall i, j :: 0 <= i < j < |l| ==> l[i] != l[j]
  }

  /** The chance of each index is its count: with every index listed once,
      a draw finds index `l[j]` exactly for the `counts[l[j]]` positions of
      its interval, and nowhere else. */
  lemma FairDraw(counts: seq<nat>, l: seq<nat>, j: nat)
    requires NoDup(l) && j < |l|
    ensures forall t: nat :: Find(counts, l, t) == Some(l[j]) <==>
      ListedSum(counts, l[..j]) <= t < ListedSum(counts, l[..j]) + CountAt(counts, l[j])
  {
    forall t: nat ensures Find(counts, l, t) == Some(l[j]) <==>
      ListedSum(counts, l[..j]) <= t < ListedSum(counts, l[..j]) + CountAt(counts, l[j])
    {
      assert l[..0] == [];
      FindFromMeaning(counts, l, 0, t);
      FindMeaning(counts, l, t);
    }
  }

  /** Adding the counts of a set of indices below `n`. */
  function SumIn(counts: seq<nat>, s: set<nat>, n: nat): nat
    requires n <= |counts|
  {
    if n == 0 then 0 else SumIn(counts, s, n - 1) + (if n - 1 in s then counts[n - 1] else 0)
  }

  lemma {:induction false} SumInAdd(counts: seq<nat>, s: set<nat>, x: nat, n: nat)
    requires n <= |counts|
    ensures SumIn(counts, s + {x}, n) <= SumIn(counts, s, n) + CountAt(counts, x)
    ensures x !in s ==> SumIn(counts, s + {x}, n) == SumIn(counts, s, n) + (if x < n then counts[x] else 0)
  {
    if n > 0 {
      SumInAdd(counts, s, x, n - 1);
    }
  }

  lemma {:induction false} SumInAll(counts: seq<nat>, s: set<nat>, n: nat)
    requires n <= |counts|
    requires forall x :: 0 <= x < n && counts[x] > 0 ==> x in s
    ensures SumIn(counts, s, n) == Sum(counts[..n])
  {
    if n == 0 {
      assert counts[..0] == [];
    } else {
      SumInAll(counts, s, n - 1);
      SumPrefixStep(counts, n - 1);
    }
  }

  function SetOf(l: seq<nat>): set<nat> {
    set x | x in l
  }

  lemma {:induction false} ListedSumSet(counts: seq<nat>, l: seq<nat>)
    ensures ListedSum(counts, l) >= SumIn(counts, SetOf(l), |counts|)
    ensures NoDup(l) && (forall k :: 0 <= k < |l| ==> l[k] < |counts|) ==>
      ListedSum(counts, l) == SumIn(counts, SetOf(l), |counts|)
  {
    if l == [] {
      assert SetOf(l) == {};
      EmptySumIn(counts, |counts|);
    } else {
      var init := l[..|l| - 1];
      var x := l[|l| - 1];
      assert l == init + [x];
      assert SetOf(l) == SetOf(init) + {x};
      ListedSumSet(counts, init);
      SumInAdd(counts, SetOf(init), x, |counts|);
      if NoDup(l) {
        assert x !in SetOf(init) by {
          forall i | 0 <= i < |init| ensures init[i] != x {
            assert init[i] == l[i];
          }
        }
        assert NoDup(init) by {
          forall i, j | 0 <= i < j < |init| ensures init[i] != init[j] {
            assert init[i] == l[i] && init[j] == l[j];
          }
        }
      }
    }
  }

  lemma {:induction false} EmptySumIn(counts: seq<nat>, n: nat)
    requires n <= |counts|
    ensures SumIn(counts, {}, n) == 0
  {
    if n > 0 {
      EmptySumIn(counts, n - 1);
    }
  }

  /** A list naming every index with a positive count adds up to at least
      the table's total, and to exactly the total without repetitions. */
  lemma ListedSumCovers(counts: seq<nat>, l: seq<nat>)
    requires forall x :: 0 <= x < |counts| && counts[x] > 0 ==> x in l
    ensures ListedSum(counts, l) >= Sum(counts)
    ensures NoDup(l) && (forall k :: 0 <= k < |l| ==> l[k] < |counts|) ==> ListedSum(counts, l) == Sum(counts)
  {
    ListedSumSet(counts, l);
    SumInAll(counts, SetOf(l), |counts|);
    assert counts[..|counts|] == counts;
  }

  /** The loop of `get_index`: walks the list, drops (by `swap_remove`)
      every index met with a zero count, and stops at the first index whose
      running total passes `t`. Returns the list it leaves and the index. */
  function Search(counts: seq<nat>, l: seq<nat>, k: nat, acc: nat, t: nat): (seq<nat>, Option<nat>)
    decreases |l| - k
  {
    if k >= |l| then (l, None)
    else if CountAt(counts, l[k]) > 0 then
      if acc + CountAt(counts, l[k]) > t then (l, Some(l[k]))
      else Search(counts, l, k + 1, acc + CountAt(counts, l[k]), t)
    else Search(counts, SwapRemove(l, k), k, acc, t)
  }

  /** The list after a search only lost entries with a zero count; if
      every entry had a positive count, it is unchanged. */
  ghost predicate Pruned(counts: seq<nat>, before: seq<nat>, after: seq<nat>) {
    (forall x :: multiset(after)[x] <= multiset(before)[x])
    && (forall x :: CountAt(counts, x) > 0 ==> multiset(after)[x] == multiset(before)[x])
    && ((forall k :: 0 <= k < |before| ==> CountAt(counts, before[k]) > 0) ==> after == before)
  }

  lemma SwapRemoveNoDup(l: seq<nat>, i: nat)
    requires i < |l| && NoDup(l)
    ensures NoDup(SwapRemove(l, i))
  {
    SwapRemoveFacts(l, i);
    var r := SwapRemove(l, i);
    var last := |l| - 1;
    forall a, b | 0 <= a < b < |r| ensures r[a] != r[b] {
      var pa := if a == i then last else a;
      var pb := if b == i then last else b;
      assert r[a] == l[pa] && r[b] == l[pb];
      assert pa != pb;
      if pa < pb {
      } else {
      }
    }
  }

  /** The search keeps the positions it has passed. */
  lemma {:induction false} SearchPrefix(counts: seq<nat>, l: seq<nat>, k: nat, acc: nat, t: nat)
    requires k <= |l|
    ensures |Search(counts, l, k, acc, t).0| >= k
    ensures Search(counts, l, k, acc, t).0[..k] == l[..k]
    decreases |l| - k
  {
    if k < |l| {
      if CountAt(counts, l[k]) > 0 {
        if acc + CountAt(counts, l[k]) <= t {
          SearchPrefix(counts, l, k + 1, acc + CountAt(counts, l[k]), t);
          var l' := Search(counts, l, k, acc, t).0;
          assert l'[..k] == l'[..k + 1][..k];
        }
      } else {
        var l2 := SwapRemove(l, k);
        SwapRemoveFacts(l, k);
        assert l2[..k] == l[..k];
        SearchPrefix(counts, l2, k, acc, t);
      }
    }
  }

  /** The search drops only entries with a zero count, and keeps the list
      free of repetitions if it was. */
  lemma {:induction false} SearchPruned(counts: seq<nat>, l: seq<nat>, k: nat, acc: nat, t: nat)
    requires k <= |l|
    ensures Pruned(counts, l, Search(counts, l, k, acc, t).0)
    ensures NoDup(l) ==> NoDup(Search(counts, l, k, acc, t).0)
    decreases |l| - k
  {
    if k < |l| {
      if CountAt(counts, l[k]) > 0 {
        if acc + CountAt(counts, l[k]) <= t {
          SearchPruned(counts, l, k + 1, acc + CountAt(counts, l[k]), t);
        }
      } else {
        SearchPruned(counts, SwapRemove(l, k), k, acc, t);
        PrunedThroughRemove(counts, l, k, Search(counts, l, k, acc, t).0);
        if NoDup(l) {
          SwapRemoveNoDup(l, k);
        }
      }
    }
  }

  /** Dropping an entry with a zero count is pruning, and pruning after it
      still prunes the original list. */
  lemma PrunedThroughRemove(counts: seq<nat>, l: seq<nat>, k: nat, after: seq<nat>)
    requires k < |l| && CountAt(counts, l[k]) == 0
    requires Pruned(counts, SwapRemove(l, k), after)
    ensures Pruned(counts, l, after)
  {
    SwapRemoveFacts(l, k);
  }

  /** The search's answer is the cumulative search over the list it leaves. */
  lemma {:induction false} SearchFind(counts: seq<nat>, l: seq<nat>, k: nat, acc: nat, t: nat)
    requires k <= |l| && acc == ListedSum(counts, l[..k]) && acc <= t
    ensures Search(counts, l, k, acc, t).1 == Find(counts, Search(counts, l, k, acc, t).0, t)
    decreases |l| - k
  {
    if k >= |l| {
      FindSkip(counts, l, k, t);
    } else if CountAt(counts, l[k]) > 0 {
      if acc + CountAt(counts, l[k]) > t {
        FindSkip(counts, l, k, t);
      } else {
        ListedSumStep(counts, l, k);
        SearchFind(counts, l, k + 1, acc + CountAt(counts, l[k]), t);
      }
    } else {
      var l2 := SwapRemove(l, k);
      SwapRemoveFacts(l, k);
      assert l2[..k] == l[..k];
      SearchFind(counts, l2, k, acc, t);
    }
  }

  /** `size` is the total of `counts`, every entry of `l` indexes `counts`,
      and every index with a positive count is in `l`. */
  ghost predicate Consistent(counts: seq<nat>, size: nat, l: seq<nat>) {
    size == Sum(counts)
    && (forall k :: 0 <= k < |l| ==> l[k] < |counts|)
    && (forall x :: 0 <= x < |counts| && counts[x] > 0 ==> x in l)
  }

  /** A draw below the total finds an index with a positive count, and
      taking one from that count keeps the state consistent with the pruned
      list, and free of duplicates if it was before. */
  lemma DrawStep(counts: seq<nat>, size: nat, start: seq<nat>, t: nat, l: seq<nat>, r: Option<nat>)
    requires Consistent(counts, size, start) && t < size
    requires (l, r) == Search(counts, start, 0, 0, t)
    ensures r.Some? && r.value < |counts| && counts[r.value] > 0
    ensures Consistent(counts[r.value := counts[r.value] - 1], size - 1, l)
    ensures NoDup(start) ==> NoDup(l)
  {
    RandomItemPicker.SearchOutcome(counts, size, start, t, l, r);
    var c := r.value;
    SumUpdate(counts, c, counts[c] - 1);
  }

  class RandomItemPicker {
    var nonZero: seq<nat>
    var counts: seq<nat>
    var size: nat

    /** `size` is the total count, every listed index is in the table, and
        every index with a positive count is listed. */
    ghost predicate Valid()
      reads this
    {
      Consistent(counts, size, nonZero)
    }

    /** Valid, and each index listed at most once: then every draw is fair. */
    ghost predicate Fair()
      reads this
    {
      Valid() && NoDup(nonZero)
    }

    /** `new(c, m)`: `m` indices, each with count `c`, all listed. */
    constructor (initialCountEach: nat, maxIndex: nat)
      ensures Fair()
      ensures nonZero == Range(maxIndex)
      ensures counts == seq(maxIndex, _ => initialCountEach)
      ensures size == initialCountEach * maxIndex
    {
      var listed: seq<nat> := [];
      var cs: seq<nat> := [];
      for i := 0 to maxIndex
        invariant listed == Range(i)
        invariant cs == seq(i, _ => initialCountEach)
      {
        listed := listed + [i];
        cs := cs + [initialCountEach];
      }
      nonZero := listed;
      counts := cs;
      size := initialCountEach * maxIndex;
      new;
      SumConstant(maxIndex, initialCountEach);
      RangeFacts(maxIndex);
    }

    /** `get_index`: the cumulative search for `indexToFind`, pruning
        zero-count entries on the way. */
    method GetIndex(indexToFind: nat) returns (r: Option<nat>)
      requires Valid()
      modifies this
      ensures (nonZero, r) == Search(old(counts), old(nonZero), 0, 0, indexToFind)
      ensures counts == old(counts) && size == old(size)
    {
      nonZero, r := Scan(counts, nonZero, indexToFind);
    }

    /** The loop of `get_index` over the list `start`: walks it with a running
        total of counts, drops zero-count entries by swap-removal, and stops at
        the entry whose interval holds `t`. */
    static method Scan(cs: seq<nat>, start: seq<nat>, t: nat) returns (l: seq<nat>, r: Option<nat>)
      requires forall j :: 0 <= j < |start| ==> start[j] < |cs|
      ensures (l, r) == Search(cs, start, 0, 0, t)
    {
      l := start;
      var current: nat := 0;
      var k := 0;
      assert l[..0] == [];
      while k < |l|
        invariant k <= |l|
        invariant forall j :: 0 <= j < |l| ==> l[j] < |cs|
        invariant current == ListedSum(cs, l[..k]) && current <= t
        invariant Search(cs, l, k, current, t) == Search(cs, start, 0, 0, t)
        decreases |l| - k
      {
        var index := l[k];
        if cs[index] > 0 {
          if current + cs[index] > t {
            return l, Some(index);
          }
          ListedSumStep(cs, l, k);
          current := current + cs[index];
          k := k + 1;
        } else {
          ghost var before := l;
          SwapRemovePositions(before, k);
          l := SwapRemove(l, k);
          assert l[..k] == before[..k];
        }
      }
      r := None;
    }

    /** What the search leaves behind keeps the picker valid. */
    static lemma SearchOutcome(counts: seq<nat>, size: nat, start: seq<nat>, t: nat, l: seq<nat>, r: Option<nat>)
      requires size == Sum(counts)
      requires forall k :: 0 <= k < |start| ==> start[k] < |counts|
      requires forall x :: 0 <= x < |counts| && counts[x] > 0 ==> x in start
      requires (l, r) == Search(counts, start, 0, 0, t)
      ensures forall k :: 0 <= k < |l| ==> l[k] < |counts|
      ensures forall x :: 0 <= x < |counts| && counts[x] > 0 ==> x in l
      ensures Pruned(counts, start, l)
      ensures r.Some? ==> r.value < |counts| && counts[r.value] > 0
      ensures t < size ==> r.Some?
      ensures NoDup(start) ==> NoDup(l)
    {
      assert start[..0] == [];
      SearchPruned(counts, start, 0, 0, t);
      SearchFind(counts, start, 0, 0, t);
      forall k | 0 <= k < |l| ensures l[k] < |counts| {
        assert multiset(l)[l[k]] > 0;
        assert l[k] in multiset(start);
      }
      forall x | 0 <= x < |counts| && counts[x] > 0 ensures x in l {
        assert CountAt(counts, x) > 0;
        assert x in multiset(start);
      }
      FindMeaning(counts, l, t);
      ListedSumCovers(counts, l);
    }

    /** `count(v)`. */
    function Count(v: nat): (n: nat)
      reads this
      requires v < |counts|
      ensures n == counts[v]
    {
      counts[v]
    }

    function Len(): (n: nat)
      reads this
      requires Valid()
      ensures n == Sum(counts)
    {
      size
    }

    /** `remove(v)`: takes one from a positive count and reports success;
        a zero count is left alone. */
    method Remove(v: nat) returns (removed: bool)
      requires Valid() && v < |counts|
      modifies this
      ensures Valid() && nonZero == old(nonZero)
      ensures removed <==> old(counts)[v] > 0
      ensures !removed ==> counts == old(counts) && size == old(size)
      ensures removed ==> counts == old(counts)[v := old(counts)[v] - 1] && size == old(size) - 1
      ensures old(Fair()) ==> Fair()
    {
      if counts[v] == 0 {
        removed := false;
      } else {
        SumUpdate(counts, v, counts[v] - 1);
        size := size - 1;
        counts := counts[v := counts[v] - 1];
        removed := true;
      }
    }

    /** `insert(v)` as the repository writes it: the index is listed again
        whenever its count was zero, even if the lazy pruning has not yet
        dropped it, so it can end up listed twice. */
    method InsertAsWritten(v: nat)
      requires Valid() && v < |counts|
      modifies this
      ensures Valid()
      ensures nonZero == if old(counts)[v] == 0 then old(nonZero) + [v] else old(nonZero)
      ensures counts == old(counts)[v := old(counts)[v] + 1] && size == old(size) + 1
    {
      if counts[v] == 0 {
        nonZero := nonZero + [v];
      }
      SumUpdate(counts, v, counts[v] + 1);
      counts := counts[v := counts[v] + 1];
      size := size + 1;
    }

    /** `insert(v)`, listing the index again only when it is not listed
        already. */
    method Insert(v: nat)
      requires Valid() && v < |counts|
      modifies this
      ensures Valid()
      ensures nonZero == if v !in old(nonZero) then old(nonZero) + [v] else old(nonZero)
      ensures counts == old(counts)[v := old(counts)[v] + 1] && size == old(size) + 1
      ensures old(Fair()) ==> Fair()
    {
      if counts[v] == 0 && v !in nonZero {
        nonZero := nonZero + [v];
      }
      SumUpdate(counts, v, counts[v] + 1);
      counts := counts[v := counts[v] + 1];
      size := size + 1;
    }

    /** `value()`: draws the index at cumulative position `draw % size`
        and takes one from its count; None when nothing is left. The
        repository's two failure paths (a search that finds nothing, a
        zero count found) cannot occur. */
    method Value(draw: nat) returns (r: Option<nat>)
      requires Valid()
      modifies this
      ensures Valid()
      ensures r.None? <==> old(size) == 0
      ensures |counts| == |old(counts)|
      ensures r.None? ==> counts == old(counts) && size == old(size) && nonZero == old(nonZero)
      ensures r.Some? ==> r.value < |counts| && old(counts)[r.value] > 0
      ensures r.Some? ==> counts == old(counts)[r.value := old(counts)[r.value] - 1] && size == old(size) - 1
      ensures r.Some? ==> (nonZero, r) == Search(old(counts), old(nonZero), 0, 0, draw % old(size))
      ensures old(Fair()) ==> Fair()
    {
      ListedWhenPositive(counts, size, nonZero);
      if |nonZero| == 0 {
        return None;
      }
      if size == 0 {
        return None;
      }
      ghost var before := nonZero;
      var found := GetIndex(draw % size);
      DrawStep(counts, size, before, draw % size, nonZero, found);
      var c := found.value;
      counts := counts[c := counts[c] - 1];
      size := size - 1;
      r := Some(c);
    }
  }

  /** A positive total implies some index is still listed. */
  lemma ListedWhenPositive(counts: seq<nat>, size: nat, l: seq<nat>)
    requires size == Sum(counts)
    requires forall x :: 0 <= x < |counts| && counts[x] > 0 ==> x in l
    ensures size > 0 ==> |l| > 0
  {
    SumZero(counts);
    if size > 0 {
      var x :| 0 <= x < |counts| && counts[x] != 0;
      assert x in l;
    }
  }

  /** The indices `0 .. n-1` in order. */
  function Range(n: nat): (r: seq<nat>)
    ensures |r| == n && forall i :: 0 <= i < n ==> r[i] == i
  {
    if n == 0 then [] else Range(n - 1) + [n - 1]
  }

  lemma RangeFacts(n: nat)
    ensures NoDup(Range(n))
    ensures forall x :: 0 <= x < n ==> x in Range(n)
  {
    forall x | 0 <= x < n ensures x in Range(n) {
      assert Range(n)[x] == x;
    }
  }

  /** The searches the two traces below perform. */
  lemma TraceSearches()
    ensures Search([0, 1], [0, 1, 1], 0, 0, 0) == ([1, 1], Some(1))
    ensures Search([1, 1], [1, 1, 0], 0, 0, 0) == ([1, 1, 0], Some(1))
    ensures Search([1, 1], [1, 1, 0], 0, 0, 1) == ([1, 1, 0], Some(1))
    ensures Search([0, 1], [0, 1], 0, 0, 0) == ([1], Some(1))
    ensures Search([1, 1], [1, 0], 0, 0, 0) == ([1, 0], Some(1))
    ensures Search([1, 1], [1, 0], 0, 0, 1) == ([1, 0], Some(0))
  {
    assert SwapRemove([0, 1, 1], 0) == [1, 1];
    assert Search([0, 1], [0, 1, 1], 0, 0, 0) == Search([0, 1], [1, 1], 0, 0, 0);
    assert Search([1, 1], [1, 1, 0], 0, 0, 1) == Search([1, 1], [1, 1, 0], 1, 1, 1);
    assert SwapRemove([0, 1], 0) == [1];
    assert Search([0, 1], [0, 1], 0, 0, 0) == Search([0, 1], [1], 0, 0, 0);
    assert Search([1, 1], [1, 0], 0, 0, 1) == Search([1, 1], [1, 0], 1, 1, 1);
  }

  /** With `insert` as written, an index that is still listed is listed a
      second time: after new(1, 2), remove(1), insert(1), remove(0), a
      search that prunes index 0, and insert(0), the list is [1, 1, 0] with
      counts [1, 1], and both draws (0 and 1) find index 1, so index 0 is
      never drawn although its count is 1. */
  method AsWrittenSkew() returns (l: seq<nat>, cs: seq<nat>, first: Option<nat>, second: Option<nat>)
    ensures l == [1, 1, 0] && cs == [1, 1] && !NoDup(l)
    ensures first == Some(1) && second == Some(1)
  {
    var p := RemoveThenReinsert(false);
    PruneFirst(p);
    p.InsertAsWritten(0);
    l, cs := p.nonZero, p.counts;
    assert l == [1, 1, 0] && cs == [1, 1];
    TraceSearches();
    first := p.GetIndex(0);
    second := p.GetIndex(1);
    assert l[0] == l[1];
  }

  /** new(1, 2), remove(1), insert(1) with either `insert`, then remove(0):
      the corrected one leaves the list [0, 1], the one as written lists
      index 1 again. */
  method RemoveThenReinsert(corrected: bool) returns (p: RandomItemPicker)
    ensures fresh(p) && p.Valid() && p.counts == [0, 1]
    ensures p.nonZero == if corrected then [0, 1] else [0, 1, 1]
  {
    p := NewThenRemove();
    if corrected {
      p.Insert(1);
    } else {
      p.InsertAsWritten(1);
    }
    assert p.counts == [1, 1];
    var ok := p.Remove(0);
  }

  /** new(1, 2), then remove(1): the count of index 1 drops to zero and
      the list still names both indices. */
  method NewThenRemove() returns (p: RandomItemPicker)
    ensures fresh(p) && p.Valid() && p.counts == [1, 0] && p.nonZero == [0, 1]
  {
    p := new RandomItemPicker(1, 2);
    assert p.nonZero == [0, 1] && p.counts == [1, 1];
    var ok := p.Remove(1);
  }

  /** A search for position 0 that prunes the zero-count index 0 from the
      front of the list. */
  method PruneFirst(p: RandomItemPicker)
    requires p.Valid() && p.counts == [0, 1]
    requires p.nonZero == [0, 1] || p.nonZero == [0, 1, 1]
    modifies p
    ensures p.Valid() && p.counts == [0, 1]
    ensures p.nonZero == if old(p.nonZero) == [0, 1] then [1] else [1, 1]
  {
    TraceSearches();
    var pruned := p.GetIndex(0);
  }

  /** The same steps with the corrected `insert`: the list stays free of
      duplicates and the two draws find the two indices. */
  method CorrectedTrace() returns (l: seq<nat>, cs: seq<nat>, first: Option<nat>, second: Option<nat>)
    ensures l == [1, 0] && cs == [1, 1] && NoDup(l)
    ensures first == Some(1) && second == Some(0)
  {
    var p := RemoveThenReinsert(true);
    PruneFirst(p);
    p.Insert(0);
    l, cs := p.nonZero, p.counts;
    assert l == [1, 0] && cs == [1, 1];
    TraceSearches();
    first := p.GetIndex(0);
    second := p.GetIndex(1);
  }
}

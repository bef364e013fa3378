/** Sequence helpers shared by the containers: sums of counts and the
    `swap_remove` operation of Rust vectors. */
module Seqs {

  function Sum(s: seq<nat>): nat {
    if s == [] then 0 else s[0] + Sum(s[1..])
  }

  lemma {:induction false} SumConcat(a: seq<nat>, b: seq<nat>)
    ensures Sum(a + b) == Sum(a) + Sum(b)
  {
    if a == [] {
      assert a + b == b;
    } else {
      assert (a + b)[1..] == a[1..] + b;
      SumConcat(a[1..], b);
    }
  }

  /** Summing a prefix one element further, as a left-to-right loop does. */
  lemma SumPrefixStep(s: seq<nat>, i: nat)
    requires i < |s|
    ensures Sum(s[..i + 1]) == Sum(s[..i]) + s[i]
  {
    assert s[..i + 1] == s[..i] + [s[i]];
    SumConcat(s[..i], [s[i]]);
    assert [s[i]][1..] == [];
  }

  /** Replacing one element changes the sum by the difference. */
  lemma SumUpdate(s: seq<nat>, i: nat, x: nat)
    requires i < |s|
    ensures Sum(s[i := x]) + s[i] == Sum(s) + x
  {
    assert s == s[..i] + [s[i]] + s[i + 1..];
    assert s[i := x] == s[..i] + [x] + s[i + 1..];
    SumConcat(s[..i] + [s[i]], s[i + 1..]);
    SumConcat(s[..i], [s[i]]);
    SumConcat(s[..i] + [x], s[i + 1..]);
    SumConcat(s[..i], [x]);
    assert [s[i]][1..] == [] && [x][1..] == [];
  }

  /** `k` copies of `x` sum to `k * x`. */
  lemma {:induction false} SumConstant(k: nat, x: nat)
    ensures Sum(seq(k, _ => x)) == k * x
  {
    if k > 0 {
      assert seq(k, _ => x)[1..] == seq(k - 1, _ => x);
      SumConstant(k - 1, x);
    }
  }

  /** One element never exceeds the sum. */
  lemma SumElement(s: seq<nat>, i: nat)
    requires i < |s|
    ensures s[i] <= Sum(s)
  {
    SumUpdate(s, i, 0);
  }

  /** A sum is zero exactly when every element is. */
  lemma {:induction false} SumZero(s: seq<nat>)
    ensures Sum(s) == 0 <==> forall i :: 0 <= i < |s| ==> s[i] == 0
  {
    if s != [] {
      SumZero(s[1..]);
      assert forall i :: 1 <= i < |s| ==> s[i] == s[1..][i - 1];
    }
  }

  /** Rust's `Vec::swap_remove`: the last element takes the place of the
      removed one. `SwapRemoveFacts` states what it keeps. */
  function SwapRemove<T>(s: seq<T>, i: nat): (r: seq<T>)
    requires i < |s|
    ensures |r| == |s| - 1
  {
    var last := |s| - 1;
    if i == last then s[..last] else s[..i] + [s[last]] + s[i + 1..last]
  }

  /** `swap_remove` takes out exactly the element at `i`, keeps every other
      position, and moves the last element into the gap. */
  lemma SwapRemoveFacts<T>(s: seq<T>, i: nat)
    requires i < |s|
    ensures multiset(SwapRemove(s, i)) == multiset(s) - multiset{s[i]}
    ensures forall j :: 0 <= j < |s| - 1 && j != i ==> SwapRemove(s, i)[j] == s[j]
    ensures i < |s| - 1 ==> SwapRemove(s, i)[i] == s[|s| - 1]
  {
    if i == |s| - 1 {
      SwapRemoveLastBag(s);
    } else {
      SwapRemoveBag(s, i);
    }
  }

  /** The positional part of `SwapRemoveFacts`. */
  lemma SwapRemovePositions<T>(s: seq<T>, i: nat)
    requires i < |s|
    ensures forall j :: 0 <= j < |s| - 1 && j != i ==> SwapRemove(s, i)[j] == s[j]
    ensures i < |s| - 1 ==> SwapRemove(s, i)[i] == s[|s| - 1]
  {
  }

  lemma SwapRemoveLastBag<T>(s: seq<T>)
    requires |s| > 0
    ensures multiset(s[..|s| - 1]) == multiset(s) - multiset{s[|s| - 1]}
  {
    assert s == s[..|s| - 1] + [s[|s| - 1]];
  }

  lemma SwapRemoveBag<T>(s: seq<T>, i: nat)
    requires i < |s| - 1
    ensures multiset(s[..i] + [s[|s| - 1]] + s[i + 1..|s| - 1]) == multiset(s) - multiset{s[i]}
  {
    var last := |s| - 1;
    assert s == s[..i] + [s[i]] + s[i + 1..last] + [s[last]];
    assert multiset(s) == multiset(s[..i]) + multiset{s[i]} + multiset(s[i + 1..last]) + multiset{s[last]};
  }

  /** The position of the first occurrence of `x`. */
  function IndexOf<T(==)>(s: seq<T>, x: T): (i: nat)
    requires x in s
    ensures i < |s| && s[i] == x
    ensures forall j :: 0 <= j < i ==> s[j] != x
  {
    if s[0] == x then 0 else 1 + IndexOf(s[1..], x)
  }
}

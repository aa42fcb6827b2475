/** What the bubble sort of a package list must achieve, and why it stops. */
module Sorting {
  import opened Ordering

  /** TotalPreorder on the elements of els, which may be object references. */
  ghost predicate OrdersTotally<T>(cmp: (T, T) -> int, els: set<T>) {
    && (forall x | x in els :: cmp(x, x) == 0)
    && (forall x, y | x in els && y in els :: Sign(cmp(x, y)) == -Sign(cmp(y, x)))
    && (forall x, y, z | x in els && y in els && z in els && cmp(x, y) <= 0 && cmp(y, z) <= 0 :: cmp(x, z) <= 0)
  }

  ghost predicate Over<T>(s: seq<T>, els: set<T>) {
    forall x | x in s :: x in els
  }

  predicate SortedBy<T>(cmp: (T, T) -> int, s: seq<T>) {
    forall i, j | 0 <= i < j < |s| :: cmp(s[i], s[j]) <= 0
  }

  /** The elements of s which compare equal to x, in order. */
  function TiesOf<T>(cmp: (T, T) -> int, x: T, s: seq<T>): seq<T> {
    if s == [] then []
    else (if cmp(s[0], x) == 0 then [s[0]] else []) + TiesOf(cmp, x, s[1..])
  }

  /** t has the elements of s, and elements that tie are in the same order. */
  ghost predicate StablePermutation<T>(cmp: (T, T) -> int, s: seq<T>, t: seq<T>) {
    multiset(s) == multiset(t) && forall x | x in s :: TiesOf(cmp, x, s) == TiesOf(cmp, x, t)
  }

  function CountBelow<T>(cmp: (T, T) -> int, x: T, s: seq<T>): nat {
    if s == [] then 0 else (if cmp(x, s[0]) > 0 then 1 else 0) + CountBelow(cmp, x, s[1..])
  }

  /** The number of pairs that are out of order. */
  function Inversions<T>(cmp: (T, T) -> int, s: seq<T>): nat {
    if s == [] then 0 else CountBelow(cmp, s[0], s[1..]) + Inversions(cmp, s[1..])
  }

  function Swapped<T>(s: seq<T>, i: nat): seq<T>
    requires i + 1 < |s|
  {
    s[i := s[i + 1]][i + 1 := s[i]]
  }

  lemma SwappedRest<T>(s: seq<T>, i: nat)
    requires 0 < i && i + 1 < |s|
    ensures Swapped(s, i)[0] == s[0] && Swapped(s, i)[1..] == Swapped(s[1..], i - 1)
  {
  }

  lemma SwappedFront<T>(s: seq<T>)
    requires 1 < |s|
    ensures Swapped(s, 0) == [s[1], s[0]] + s[2..]
    ensures s[1..][1..] == s[2..] && Swapped(s, 0)[1..][1..] == s[2..]
  {
  }

  lemma {:induction false} CountBelowSwapped<T>(cmp: (T, T) -> int, x: T, s: seq<T>, i: nat)
    requires i + 1 < |s|
    ensures CountBelow(cmp, x, Swapped(s, i)) == CountBelow(cmp, x, s)
  {
    if i == 0 {
      SwappedFront(s);
    } else {
      SwappedRest(s, i);
      CountBelowSwapped(cmp, x, s[1..], i - 1);
    }
  }

  /** Exchanging neighbours that are out of order removes exactly one inversion. */
  lemma {:induction false} SwapRemovesInversion<T>(cmp: (T, T) -> int, els: set<T>, s: seq<T>, i: nat)
    requires OrdersTotally(cmp, els) && Over(s, els)
    requires i + 1 < |s| && cmp(s[i], s[i + 1]) > 0
    ensures Inversions(cmp, Swapped(s, i)) == Inversions(cmp, s) - 1
  {
    if i == 0 {
      SwappedFront(s);
      assert s[0] in els && s[1] in els;
      assert Sign(cmp(s[0], s[1])) == -Sign(cmp(s[1], s[0]));
    } else {
      SwappedRest(s, i);
      CountBelowSwapped(cmp, s[0], s[1..], i - 1);
      SwapRemovesInversion(cmp, els, s[1..], i - 1);
    }
  }

  lemma {:induction false} TiesSwapped<T>(cmp: (T, T) -> int, els: set<T>, x: T, s: seq<T>, i: nat)
    requires OrdersTotally(cmp, els) && Over(s, els) && x in els
    requires i + 1 < |s| && cmp(s[i], s[i + 1]) > 0
    ensures TiesOf(cmp, x, Swapped(s, i)) == TiesOf(cmp, x, s)
  {
    if i == 0 {
      SwappedFront(s);
      assert s[0] in els && s[1] in els;
      assert Sign(cmp(s[1], x)) == -Sign(cmp(x, s[1]));
      assert !(cmp(s[0], x) <= 0 && cmp(x, s[1]) <= 0);
      var rest := TiesOf(cmp, x, s[2..]);
      assert TiesOf(cmp, x, s[1..]) == (if cmp(s[1], x) == 0 then [s[1]] else []) + rest;
      assert TiesOf(cmp, x, Swapped(s, 0)[1..]) == (if cmp(s[0], x) == 0 then [s[0]] else []) + rest;
    } else {
      SwappedRest(s, i);
      TiesSwapped(cmp, els, x, s[1..], i - 1);
    }
  }

  lemma SwapIsStable<T>(cmp: (T, T) -> int, els: set<T>, s: seq<T>, i: nat)
    requires OrdersTotally(cmp, els) && Over(s, els)
    requires i + 1 < |s| && cmp(s[i], s[i + 1]) > 0
    ensures StablePermutation(cmp, s, Swapped(s, i))
  {
    forall x | x in s ensures TiesOf(cmp, x, Swapped(s, i)) == TiesOf(cmp, x, s) {
      TiesSwapped(cmp, els, x, s, i);
    }
  }

  /** Permutations that keep ties in order compose. */
  lemma StableTransitive<T>(cmp: (T, T) -> int, s: seq<T>, t: seq<T>, u: seq<T>)
    requires StablePermutation(cmp, s, t) && StablePermutation(cmp, t, u)
    ensures StablePermutation(cmp, s, u)
  {
    forall x | x in s ensures TiesOf(cmp, x, s) == TiesOf(cmp, x, u) {
      assert x in multiset(s) && x in multiset(t) && x in t;
    }
  }

  predicate InOrder<T>(cmp: (T, T) -> int, s: seq<T>, k: int)
    requires 0 <= k < |s| - 1
  {
    cmp(s[k], s[k + 1]) <= 0
  }

  predicate NeighboursInOrder<T>(cmp: (T, T) -> int, s: seq<T>, n: int)
    requires n < |s|
  {
    forall k | 0 <= k < n :: InOrder(cmp, s, k)
  }

  /** Where a pass that started from s0 stands once it has compared the first n pairs. */
  ghost predicate SortProgress<T>(cmp: (T, T) -> int, els: set<T>, s0: seq<T>, s: seq<T>, swapped: bool, n: int) {
    && n < |s| && Over(s, els)
    && StablePermutation(cmp, s0, s)
    && if swapped then Inversions(cmp, s) < Inversions(cmp, s0) else s == s0 && NeighboursInOrder(cmp, s, n)
  }

  lemma SortStarts<T>(cmp: (T, T) -> int, els: set<T>, s: seq<T>)
    requires s != [] && Over(s, els)
    ensures SortProgress(cmp, els, s, s, false, 0)
  {
  }

  lemma SwapEffect<T>(cmp: (T, T) -> int, els: set<T>, s0: seq<T>, s: seq<T>, swapped: bool, i: nat)
    requires OrdersTotally(cmp, els) && SortProgress(cmp, els, s0, s, swapped, i)
    requires i + 1 < |s| && cmp(s[i], s[i + 1]) > 0
    ensures SortProgress(cmp, els, s0, Swapped(s, i), true, i + 1)
  {
    SwapRemovesInversion(cmp, els, s, i);
    SwapIsStable(cmp, els, s, i);
    StableTransitive(cmp, s0, s, Swapped(s, i));
  }

  lemma KeepEffect<T>(cmp: (T, T) -> int, els: set<T>, s0: seq<T>, s: seq<T>, swapped: bool, i: nat)
    requires SortProgress(cmp, els, s0, s, swapped, i)
    requires i + 1 < |s| && cmp(s[i], s[i + 1]) <= 0
    ensures SortProgress(cmp, els, s0, s, swapped, i + 1)
  {
  }

  /** A pass without an exchange has checked neighbours only, which is enough. */
  lemma NeighboursSuffice<T>(cmp: (T, T) -> int, els: set<T>, s: seq<T>)
    requires OrdersTotally(cmp, els) && Over(s, els)
    requires NeighboursInOrder(cmp, s, |s| - 1)
    ensures SortedBy(cmp, s)
  {
    forall i, j | 0 <= i < j < |s| ensures cmp(s[i], s[j]) <= 0 {
      NeighboursSorted(cmp, els, s, i, j);
    }
  }

  lemma {:induction false} NeighboursSorted<T>(cmp: (T, T) -> int, els: set<T>, s: seq<T>, i: nat, j: nat)
    requires OrdersTotally(cmp, els) && Over(s, els)
    requires NeighboursInOrder(cmp, s, |s| - 1)
    requires i <= j < |s|
    ensures cmp(s[i], s[j]) <= 0
    decreases j - i
  {
    assert s[i] in els && s[j] in els;
    if i < j {
      assert s[j - 1] in els;
      NeighboursSorted(cmp, els, s, i, j - 1);
      assert InOrder(cmp, s, j - 1);
    }
  }
}

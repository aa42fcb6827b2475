/**
 Three-way comparison functions in the style of strcmp, and the constructions
 on them that package ordering is made of.
 */
module Ordering {

  function Sign(x: int): int {
    if x > 0 then 1 else if x < 0 then -1 else 0
  }

  /** What a sort and an equality test need from a comparison function. */
  ghost predicate TotalPreorder<T(!new)>(cmp: (T, T) -> int) {
    && (forall x :: cmp(x, x) == 0)
    && (forall x, y :: Sign(cmp(x, y)) == -Sign(cmp(y, x)))
    && (forall x, y, z :: cmp(x, y) <= 0 && cmp(y, z) <= 0 ==> cmp(x, z) <= 0)
  }

  /** Comparison by c1, ties broken by c2. */
  function Lexically(c1: int, c2: int): int {
    if c1 != 0 then c1 else c2
  }

  function Rest<T>(s: seq<T>): seq<T> {
    if s == [] then [] else s[1..]
  }

  function HeadOr<T>(s: seq<T>, pad: T): T {
    if s == [] then pad else s[0]
  }

  /** Position by position comparison in which a missing position reads as pad. */
  function LexPad<T>(cmp: (T, T) -> int, pad: T, a: seq<T>, b: seq<T>): int
    decreases |a| + |b|
  {
    if a == [] && b == [] then 0
    else Lexically(cmp(HeadOr(a, pad), HeadOr(b, pad)), LexPad(cmp, pad, Rest(a), Rest(b)))
  }

  lemma {:induction false} LexPadReflexive<T(!new)>(cmp: (T, T) -> int, pad: T, a: seq<T>)
    requires TotalPreorder(cmp)
    ensures LexPad(cmp, pad, a, a) == 0
  {
    if a != [] {
      LexPadReflexive(cmp, pad, a[1..]);
    }
  }

  lemma {:induction false} LexPadAntisymmetric<T(!new)>(cmp: (T, T) -> int, pad: T, a: seq<T>, b: seq<T>)
    requires TotalPreorder(cmp)
    ensures Sign(LexPad(cmp, pad, a, b)) == -Sign(LexPad(cmp, pad, b, a))
    decreases |a| + |b|
  {
    if a != [] || b != [] {
      var x, y := HeadOr(a, pad), HeadOr(b, pad);
      assert Sign(cmp(x, y)) == -Sign(cmp(y, x));
      LexPadAntisymmetric(cmp, pad, Rest(a), Rest(b));
    }
  }

  lemma {:induction false} LexPadTransitive<T(!new)>(cmp: (T, T) -> int, pad: T, a: seq<T>, b: seq<T>, c: seq<T>)
    requires TotalPreorder(cmp)
    requires LexPad(cmp, pad, a, b) <= 0 && LexPad(cmp, pad, b, c) <= 0
    ensures LexPad(cmp, pad, a, c) <= 0
    decreases |a| + |b| + |c|
  {
    if a != [] || c != [] {
      var x, y, z := HeadOr(a, pad), HeadOr(b, pad), HeadOr(c, pad);
      assert cmp(x, y) <= 0 && cmp(y, z) <= 0 by {
        assert cmp(pad, pad) == 0;
      }
      assert Sign(cmp(x, y)) == -Sign(cmp(y, x));
      assert Sign(cmp(y, z)) == -Sign(cmp(z, y));
      assert Sign(cmp(x, z)) == -Sign(cmp(z, x));
      if cmp(x, z) == 0 {
        assert cmp(z, x) <= 0;
        assert cmp(y, x) <= 0 && cmp(z, y) <= 0;
        LexPadTransitive(cmp, pad, Rest(a), Rest(b), Rest(c));
      }
    }
  }

  lemma LexPadTotalPreorder<T(!new)>(cmp: (T, T) -> int, pad: T)
    requires TotalPreorder(cmp)
    ensures TotalPreorder((a: seq<T>, b: seq<T>) => LexPad(cmp, pad, a, b))
  {
    forall a: seq<T> ensures LexPad(cmp, pad, a, a) == 0 {
      LexPadReflexive(cmp, pad, a);
    }
    forall a: seq<T>, b: seq<T>
      ensures Sign(LexPad(cmp, pad, a, b)) == -Sign(LexPad(cmp, pad, b, a))
    {
      LexPadAntisymmetric(cmp, pad, a, b);
    }
    forall a: seq<T>, b: seq<T>, c: seq<T>
      | LexPad(cmp, pad, a, b) <= 0 && LexPad(cmp, pad, b, c) <= 0
      ensures LexPad(cmp, pad, a, c) <= 0
    {
      LexPadTransitive(cmp, pad, a, b, c);
    }
  }

  /** Comparing by c1 with ties broken by c2 is a total preorder when both are. */
  lemma LexicallyTotalPreorder<T(!new)>(cmp: (T, T) -> int, c1: (T, T) -> int, c2: (T, T) -> int)
    requires TotalPreorder(c1) && TotalPreorder(c2)
    requires forall x, y :: Sign(cmp(x, y)) == Sign(Lexically(c1(x, y), c2(x, y)))
    ensures TotalPreorder(cmp)
  {
    forall x: T ensures cmp(x, x) == 0 {
      assert Sign(cmp(x, x)) == Sign(Lexically(c1(x, x), c2(x, x)));
    }
    forall x: T, y: T
      ensures Sign(cmp(x, y)) == -Sign(cmp(y, x))
    {
      assert Sign(c1(x, y)) == -Sign(c1(y, x));
    }
    forall x: T, y: T, z: T | cmp(x, y) <= 0 && cmp(y, z) <= 0
      ensures cmp(x, z) <= 0
    {
      assert Sign(cmp(x, y)) == Sign(Lexically(c1(x, y), c2(x, y)));
      assert Sign(cmp(y, z)) == Sign(Lexically(c1(y, z), c2(y, z)));
      assert Sign(cmp(x, z)) == Sign(Lexically(c1(x, z), c2(x, z)));
      assert Sign(c1(x, z)) == -Sign(c1(z, x));
      assert Sign(c1(x, y)) == -Sign(c1(y, x));
      assert Sign(c1(y, z)) == -Sign(c1(z, y));
      assert c1(x, y) <= 0 && c1(y, z) <= 0 && c1(x, z) <= 0;
      if c1(x, z) == 0 {
        assert c1(z, y) <= 0 && c1(y, x) <= 0;
      }
    }
  }

  lemma ZeroIsTransitive<T(!new)>(cmp: (T, T) -> int, x: T, y: T, z: T)
    requires TotalPreorder(cmp)
    requires cmp(x, y) == 0 && cmp(y, z) == 0
    ensures cmp(x, z) == 0 && cmp(y, x) == 0
  {
    assert Sign(cmp(x, y)) == -Sign(cmp(y, x));
    assert Sign(cmp(y, z)) == -Sign(cmp(z, y));
    assert Sign(cmp(x, z)) == -Sign(cmp(z, x));
    assert cmp(x, z) <= 0 && cmp(z, x) <= 0;
  }
}

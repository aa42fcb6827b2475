/**
 What happens to a list when its packages are merged again into an empty one, as
 a resize does to every bucket, and how far two lists that went through different
 resizes stay alike.
 */
module Remerging {
  import opened PackageOrder
  import opened Merging

  // ---------------------------------------------------------------------
  // One name at a time
  // ---------------------------------------------------------------------

  function ByName(s: seq<Package>, name: string): seq<Package> {
    if s == [] then []
    else if s[0].data.name == name then [s[0]] + ByName(s[1..], name)
    else ByName(s[1..], name)
  }

  lemma {:induction false} ByNameAppend(s: seq<Package>, p: Package, name: string)
    ensures ByName(s + [p], name) == ByName(s, name) + (if p.data.name == name then [p] else [])
  {
    if s == [] {
      assert s + [p] == [p];
    } else {
      assert (s + [p])[1..] == s[1..] + [p];
      ByNameAppend(s[1..], p, name);
    }
  }

  lemma WithoutTail(s: seq<Package>, i: nat)
    requires 0 < i < |s|
    ensures Without(s, i)[0] == s[0] && Without(s, i)[1..] == Without(s[1..], i - 1)
  {
  }

  lemma {:induction false} ByNameWithout(s: seq<Package>, i: nat, name: string)
    requires i < |s| && s[i].data.name != name
    ensures ByName(Without(s, i), name) == ByName(s, name)
  {
    if i == 0 {
      assert Without(s, 0) == s[1..];
    } else {
      WithoutTail(s, i);
      ByNameWithout(s[1..], i - 1, name);
    }
  }

  /** The first match lies among the packages of the same name. */
  lemma {:induction false} FirstMatchByName(key: PrimaryKey, s: seq<Package>, p: Package)
    ensures Current(key, ByName(s, p.data.name), p) == Current(key, s, p)
  {
    if s != [] && !Matches(key, s[0], p) {
      FirstMatchByName(key, s[1..], p);
      if s[0].data.name == p.data.name {
        assert ByName(s, p.data.name)[1..] == ByName(s[1..], p.data.name);
      }
    }
  }

  /** Taking it out can be done before or after selecting that name. */
  lemma {:induction false} RemovalByName(key: PrimaryKey, s: seq<Package>, p: Package)
    requires FirstMatch(key, s, p) < |s|
    ensures var t := ByName(s, p.data.name);
      && FirstMatch(key, t, p) < |t|
      && ByName(Without(s, FirstMatch(key, s, p)), p.data.name) == Without(t, FirstMatch(key, t, p))
  {
    var t := ByName(s, p.data.name);
    var i := FirstMatch(key, s, p);
    if i == 0 {
      assert Without(s, 0) == s[1..];
      assert t == [s[0]] + ByName(s[1..], p.data.name);
      assert Without(t, 0) == ByName(s[1..], p.data.name);
    } else {
      RemovalByName(key, s[1..], p);
      WithoutTail(s, i);
      if s[0].data.name == p.data.name {
        assert t[1..] == ByName(s[1..], p.data.name);
        WithoutTail(t, FirstMatch(key, t, p));
        assert Without(t, FirstMatch(key, t, p)) == [s[0]] + Without(t[1..], FirstMatch(key, t[1..], p));
      }
    }
  }

  lemma OutcomeByName(key: PrimaryKey, d: Decision, s: seq<Package>, p: Package, name: string)
    ensures var t := ByName(s, p.data.name);
      var flat, one := Outcome(d, s, FirstMatch(key, s, p), p), Outcome(d, t, FirstMatch(key, t, p), p);
      && flat.change == one.change
      && ByName(flat.pkgs, name) == if name == p.data.name then one.pkgs else ByName(s, name)
  {
    FirstMatchByName(key, s, p);
    var i := FirstMatch(key, s, p);
    if d.removeOld && i < |s| {
      RemovalByName(key, s, p);
      ByNameAppend(Without(s, i), p, name);
      if name != p.data.name {
        ByNameWithout(s, i, name);
      }
    } else {
      ByNameAppend(s, p, name);
    }
  }

  /**
   Merging into one flat list and keeping a list per name agree: the same change
   is reported, the list of that name is merged into, and no other one changes.
   */
  lemma MergeByName(rules: Rules, key: PrimaryKey, s: seq<Package>, p: Package, name: string)
    ensures var flat, one := Merge(rules, key, s, p), Merge(rules, key, ByName(s, p.data.name), p);
      && flat.change == one.change
      && ByName(flat.pkgs, name) == if name == p.data.name then one.pkgs else ByName(s, name)
  {
    FirstMatchByName(key, s, p);
    OutcomeByName(key, Decide(rules, Current(key, s, p), p), s, p, name);
  }

  // ---------------------------------------------------------------------
  // Merging a list again
  // ---------------------------------------------------------------------

  /** Merged after those before it, the package at index k is appended, and nothing is removed. */
  predicate Appends(rules: Rules, key: PrimaryKey, s: seq<Package>, k: nat)
    requires k < |s|
  {
    var i := FirstMatch(key, s[..k], s[k]);
    if i == k then !(InForce(rules, s[k]) && s[k].data.prefix in {PREFIX_REMOVE, PREFIX_UPDATE})
    else !InForce(rules, s[k]) && rules.keepAll && s[i] != s[k] && !(rules.squash && Equals(s[i].data, s[k].data))
  }

  predicate AppendsFrom(rules: Rules, key: PrimaryKey, s: seq<Package>, j: nat) {
    forall k | j <= k < |s| :: Appends(rules, key, s, k)
  }

  predicate Rebuilds(rules: Rules, key: PrimaryKey, s: seq<Package>) {
    AppendsFrom(rules, key, s, 0)
  }

  lemma AppendsExactly(rules: Rules, key: PrimaryKey, s: seq<Package>, k: nat)
    requires k < |s| && IsValid(s[k])
    ensures var m := Merge(rules, key, s[..k], s[k]);
      if Appends(rules, key, s, k) then m == Merged(Added, s[..k + 1]) else |m.pkgs| <= k
  {
    assert s[..k] + [s[k]] == s[..k + 1];
  }

  lemma {:induction false} MergeAllGrowth(rules: Rules, key: PrimaryKey, s: seq<Package>, ps: seq<Package>)
    ensures |MergeAll(rules, key, s, ps).pkgs| <= |s| + |ps|
    decreases |ps|
  {
    if ps != [] {
      MergeAllGrowth(rules, key, s, ps[1..]);
      MergeAllGrowth(rules, key, Merge(rules, key, s, ps[0]).pkgs, ps[1..]);
    }
  }

  lemma {:induction false} RemergeFrom(rules: Rules, key: PrimaryKey, s: seq<Package>, j: nat)
    requires AllValid(s) && j <= |s|
    ensures var m := MergeAll(rules, key, s[..j], s[j..]);
      if AppendsFrom(rules, key, s, j) then m.pkgs == s && m.change != Failed else |m.pkgs| < |s|
    decreases |s| - j
  {
    if j < |s| {
      var t, p, rest := s[..j], s[j], s[j + 1..];
      var m := Merge(rules, key, t, p);
      assert s[j..] == [p] + rest && ([p] + rest)[1..] == rest;
      MergeAllStep(rules, key, t, s[j..]);
      AppendsExactly(rules, key, s, j);
      if Appends(rules, key, s, j) {
        assert AppendsFrom(rules, key, s, j) <==> AppendsFrom(rules, key, s, j + 1);
        RemergeFrom(rules, key, s, j + 1);
      } else {
        assert !AppendsFrom(rules, key, s, j);
        MergeAllGrowth(rules, key, m.pkgs, rest);
      }
    } else {
      assert s[..j] == s && s[j..] == [];
    }
  }

  /**
   Under any rules, a list comes back as it was when it is merged again into an
   empty one exactly when each of its packages is appended.
   */
  lemma RemergeIsExact(rules: Rules, key: PrimaryKey, s: seq<Package>)
    requires AllValid(s)
    ensures var m := MergeAll(rules, key, [], s);
      && (m.pkgs == s <==> Rebuilds(rules, key, s))
      && (m.pkgs == s ==> m.change != Failed)
  {
    RemergeFrom(rules, key, s, 0);
    assert s[..0] == [] && s[0..] == s;
  }

  /** Where no two packages share a key, only the prefixes `-` and `?` stand in the way. */
  lemma DistinctRebuilds(rules: Rules, key: PrimaryKey, s: seq<Package>)
    requires DistinctKeys(key, s)
    ensures Rebuilds(rules, key, s) <==>
            forall x | x in s :: !(InForce(rules, x) && x.data.prefix in {PREFIX_REMOVE, PREFIX_UPDATE})
  {
    forall k | 0 <= k < |s|
      ensures Appends(rules, key, s, k) <==> !(InForce(rules, s[k]) && s[k].data.prefix in {PREFIX_REMOVE, PREFIX_UPDATE})
    {
      assert forall j | 0 <= j < k :: s[..k][j] == s[j] && !Matches(key, s[j], s[k]);
    }
  }

  /** The package at index k equals the first one that it matches, so it takes that one's place. */
  predicate Squashed(key: PrimaryKey, s: seq<Package>, k: nat)
    requires k < |s|
  {
    var i := FirstMatch(key, s[..k], s[k]);
    i < k && Equals(s[i].data, s[k].data)
  }

  predicate NoneSquashed(key: PrimaryKey, s: seq<Package>) {
    forall k | 0 <= k < |s| :: !Squashed(key, s, k)
  }

  /** Squashing and keeping all, what comes back is all there was exactly when no package equals its first match. */
  lemma SquashKeepRebuilds(rules: Rules, key: PrimaryKey, s: seq<Package>)
    requires rules.squash && rules.keepAll && AllKept(rules, s)
    ensures Rebuilds(rules, key, s) <==> NoneSquashed(key, s)
  {
    forall k | 0 <= k < |s| ensures Appends(rules, key, s, k) <==> !Squashed(key, s, k) {
      EqualsIsEquivalence(s[k].data, s[k].data, s[k].data);
    }
  }

  lemma RebuildsDistinct(rules: Rules, key: PrimaryKey, s: seq<Package>)
    requires !rules.keepAll && Rebuilds(rules, key, s)
    ensures DistinctKeys(key, s)
  {
    forall i, j | 0 <= i < j < |s| ensures !Matches(key, s[i], s[j]) {
      assert Appends(rules, key, s, j);
      assert s[..j][i] == s[i];
    }
  }

  // ---------------------------------------------------------------------
  // Merges that a resize does not undo
  // ---------------------------------------------------------------------

  /** The prefix rule does not touch the merge of p, or it keeps one package of each key, and p neither removes nor updates. */
  predicate Kept(rules: Rules, p: Package) {
    InForce(rules, p) ==> !rules.keepAll && p.data.prefix !in {PREFIX_REMOVE, PREFIX_UPDATE}
  }

  predicate AllKept(rules: Rules, ps: seq<Package>) {
    forall j | 0 <= j < |ps| :: Kept(rules, ps[j])
  }

  /** Rules under which a resize restores every list of such packages exactly. */
  predicate Exact(rules: Rules) {
    !(rules.squash && rules.keepAll)
  }

  lemma MergeKeepsKept(rules: Rules, key: PrimaryKey, s: seq<Package>, p: Package)
    requires AllKept(rules, s) && Kept(rules, p)
    ensures AllKept(rules, Merge(rules, key, s, p).pkgs)
  {
    var t := Merge(rules, key, s, p).pkgs;
    forall x | x in t ensures Kept(rules, x) {
      if x in s {
        var j :| 0 <= j < |s| && s[j] == x;
      }
    }
  }

  lemma AppendedRebuilds(rules: Rules, key: PrimaryKey, s: seq<Package>, p: Package)
    requires Rebuilds(rules, key, s)
    ensures Rebuilds(rules, key, s + [p]) <==> Appends(rules, key, s + [p], |s|)
  {
    var t := s + [p];
    forall j | 0 <= j < |s| ensures Appends(rules, key, t, j) {
      assert t[..j] == s[..j] && Appends(rules, key, s, j);
    }
  }

  /** A list that such packages were merged into can be merged together again. */
  lemma MergeKeepsRebuilds(rules: Rules, key: PrimaryKey, s: seq<Package>, p: Package)
    requires Exact(rules) && Rebuilds(rules, key, s) && AllKept(rules, s) && Kept(rules, p)
    ensures Rebuilds(rules, key, Merge(rules, key, s, p).pkgs)
  {
    var t := Merge(rules, key, s, p).pkgs;
    if rules.keepAll {
      if t != s {
        AppendedRebuilds(rules, key, s, p);
        assert t == s + [p] && t[..|s|] == s;
      }
    } else {
      assert DistinctKeys(key, t) by {
        RebuildsDistinct(rules, key, s);
        MergeKeepsKeysDistinct(rules, key, s, p);
      }
      MergeKeepsKept(rules, key, s, p);
      DistinctRebuilds(rules, key, t);
    }
  }

  // ---------------------------------------------------------------------
  // Squashing while keeping all
  // ---------------------------------------------------------------------

  ghost predicate EqualsOneOf(s: seq<Package>, d: Pkg) {
    exists x | x in s :: Equals(x.data, d)
  }

  /** All package values that equal a package of s. */
  ghost function Classes(s: seq<Package>): iset<Pkg> {
    iset d: Pkg | EqualsOneOf(s, d)
  }

  ghost predicate SameClasses(s: seq<Package>, t: seq<Package>) {
    Classes(s) == Classes(t)
  }

  ghost predicate EachEqualsOneOf(s: seq<Package>, t: seq<Package>) {
    forall x | x in s :: EqualsOneOf(t, x.data)
  }

  /** Every package of s equals one of t just when the classes of s are among those of t. */
  lemma ClassesSubset(s: seq<Package>, t: seq<Package>)
    ensures EachEqualsOneOf(s, t) <==> Classes(s) <= Classes(t)
  {
    if EachEqualsOneOf(s, t) {
      forall d | d in Classes(s) ensures d in Classes(t) {
        var x :| x in s && Equals(x.data, d);
        assert EqualsOneOf(t, x.data);
        var y :| y in t && Equals(y.data, x.data);
        EqualsIsEquivalence(y.data, x.data, d);
      }
    }
    if Classes(s) <= Classes(t) {
      forall x | x in s ensures EqualsOneOf(t, x.data) {
        EqualsIsEquivalence(x.data, x.data, x.data);
        assert x.data in Classes(s);
      }
    }
  }

  /** What having the same classes says about the packages themselves. */
  lemma SameClassesMeans(s: seq<Package>, t: seq<Package>)
    ensures SameClasses(s, t) <==> EachEqualsOneOf(s, t) && EachEqualsOneOf(t, s)
  {
    ClassesSubset(s, t);
    ClassesSubset(t, s);
    assert Classes(s) == Classes(t) <==> Classes(s) <= Classes(t) && Classes(t) <= Classes(s);
  }

  lemma ClassesConcat(s: seq<Package>, t: seq<Package>)
    ensures Classes(s + t) == Classes(s) + Classes(t)
  {
    assert forall x :: x in s + t <==> x in s || x in t;
  }

  /** With both rules on, a merge succeeds and the list has just the class of p more. */
  lemma SquashKeepMerge(rules: Rules, key: PrimaryKey, s: seq<Package>, p: Package)
    requires rules.squash && rules.keepAll && Kept(rules, p) && IsValid(p)
    ensures Merge(rules, key, s, p).change != Failed
    ensures Classes(Merge(rules, key, s, p).pkgs) == Classes(s) + Classes([p])
  {
    var t := Merge(rules, key, s, p).pkgs;
    var i := FirstMatch(key, s, p);
    forall d | EqualsOneOf(s, d) ensures EqualsOneOf(t, d) {
      var x :| x in s && Equals(x.data, d);
      if x !in t {
        assert x == s[i] && p in t;
        EqualsIsEquivalence(x.data, p.data, p.data);
        EqualsIsEquivalence(p.data, x.data, d);
      }
    }
    assert p in t;
    assert p in [p];
    assert forall d | EqualsOneOf([p], d) :: EqualsOneOf(t, d);
  }

  lemma MergeAllStep(rules: Rules, key: PrimaryKey, s: seq<Package>, ps: seq<Package>)
    requires ps != [] && IsValid(ps[0])
    ensures var m := Merge(rules, key, s, ps[0]);
      && (m.change == Failed ==> MergeAll(rules, key, s, ps) == Merged(Failed, s))
      && (m.change != Failed ==>
            var all, rest := MergeAll(rules, key, s, ps), MergeAll(rules, key, m.pkgs, ps[1..]);
            all.pkgs == rest.pkgs && (all.change == Failed <==> rest.change == Failed))
  {
  }

  lemma {:induction false} MergeAllConcat(rules: Rules, key: PrimaryKey, s: seq<Package>, ps: seq<Package>, qs: seq<Package>)
    ensures var m, all := MergeAll(rules, key, s, ps), MergeAll(rules, key, s, ps + qs);
      var rest := MergeAll(rules, key, m.pkgs, qs);
      if m.change == Failed then all.change == Failed
      else all.pkgs == rest.pkgs && (all.change == Failed <==> rest.change == Failed)
    decreases |ps|
  {
    if ps == [] {
      assert ps + qs == qs;
    } else {
      assert (ps + qs)[1..] == ps[1..] + qs;
      MergeAllConcat(rules, key, s, ps[1..], qs);
      MergeAllConcat(rules, key, Merge(rules, key, s, ps[0]).pkgs, ps[1..], qs);
    }
  }

  lemma {:induction false} SquashKeepRemerge(rules: Rules, key: PrimaryKey, s: seq<Package>, ps: seq<Package>)
    requires rules.squash && rules.keepAll && AllKept(rules, ps) && AllValid(ps)
    ensures MergeAll(rules, key, s, ps).change != Failed
    ensures Classes(MergeAll(rules, key, s, ps).pkgs) == Classes(s) + Classes(ps)
    decreases |ps|
  {
    if ps != [] {
      var m, p, rest := Merge(rules, key, s, ps[0]), ps[0], ps[1..];
      SquashKeepMerge(rules, key, s, p);
      MergeAllStep(rules, key, s, ps);
      SquashKeepRemerge(rules, key, m.pkgs, rest);
      assert Classes(ps) == Classes([p]) + Classes(rest) by {
        assert ps == [p] + rest;
        ClassesConcat([p], rest);
      }
      assert Classes(s) + Classes([p]) + Classes(rest) == Classes(s) + (Classes([p]) + Classes(rest));
    }
  }

  // ---------------------------------------------------------------------
  // Lists that took the same merges but different resizes
  // ---------------------------------------------------------------------

  /** The same list, or under both squashing and keeping all the same packages up to equality. */
  ghost predicate Alike(rules: Rules, s: seq<Package>, t: seq<Package>) {
    if Exact(rules) then s == t else SameClasses(s, t)
  }

  /** The same change, or under both squashing and keeping all the same verdict. */
  predicate AlikeChange(rules: Rules, c: Change, d: Change) {
    if Exact(rules) then c == d else c == Failed <==> d == Failed
  }

  /** What a bucket must satisfy to survive a resize. */
  ghost predicate Remergeable(rules: Rules, key: PrimaryKey, s: seq<Package>) {
    AllValid(s) && AllKept(rules, s) && (Exact(rules) ==> Rebuilds(rules, key, s))
  }

  lemma MergeKeepsAlike(rules: Rules, key: PrimaryKey, s: seq<Package>, t: seq<Package>, p: Package)
    requires Kept(rules, p) && Alike(rules, s, t)
    ensures AlikeChange(rules, Merge(rules, key, s, p).change, Merge(rules, key, t, p).change)
    ensures Alike(rules, Merge(rules, key, s, p).pkgs, Merge(rules, key, t, p).pkgs)
  {
    if !Exact(rules) && IsValid(p) {
      SquashKeepMerge(rules, key, s, p);
      SquashKeepMerge(rules, key, t, p);
    }
  }

  lemma MergeKeepsRemergeable(rules: Rules, key: PrimaryKey, s: seq<Package>, p: Package)
    requires Kept(rules, p) && Remergeable(rules, key, s)
    ensures Remergeable(rules, key, Merge(rules, key, s, p).pkgs)
  {
    MergeKeepsKept(rules, key, s, p);
    if Exact(rules) {
      MergeKeepsRebuilds(rules, key, s, p);
    }
  }

  /** A resize cannot fail on a bucket, and leaves it alike. */
  lemma RemergeKeepsAlike(rules: Rules, key: PrimaryKey, s: seq<Package>)
    requires Remergeable(rules, key, s)
    ensures MergeAll(rules, key, [], s).change != Failed
    ensures Alike(rules, MergeAll(rules, key, [], s).pkgs, s)
  {
    if Exact(rules) {
      RemergeIsExact(rules, key, s);
    } else {
      SquashKeepRemerge(rules, key, [], s);
    }
  }
}

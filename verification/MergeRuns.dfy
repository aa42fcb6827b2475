/**
 Properties of whole runs of merges into one list: agreement between orders of
 the same packages, safety of pinned versions, and the effect of minimum versions.
 */
module MergeRuns {
  import opened PackageOrder
  import opened Merging

  // ---------------------------------------------------------------------
  // Lists that speak for everything merged into them
  // ---------------------------------------------------------------------

  ghost predicate Covered<T>(rel: (T, T) -> bool, s: seq<T>, z: T) {
    exists x | x in s :: rel(x, z)
  }

  /** Each relevant element of done is related to an element of s. */
  ghost predicate Covers<T>(rel: (T, T) -> bool, relevant: T -> bool, s: seq<T>, done: seq<T>) {
    forall z | z in done && relevant(z) :: Covered(rel, s, z)
  }

  /** Covering survives a step that drops only elements whose part keeper takes over. */
  lemma CoversStep<T>(rel: (T, T) -> bool, relevant: T -> bool, s: seq<T>, t: seq<T>, done: seq<T>, p: T, keeper: T)
    requires Covers(rel, relevant, s, done)
    requires keeper in t && rel(keeper, p)
    requires forall x, z | x in s && x !in t && z in done && rel(x, z) :: rel(keeper, z)
    ensures Covers(rel, relevant, t, done + [p])
  {
    forall z | z in done + [p] && relevant(z) ensures Covered(rel, t, z) {
      if z == p {
        assert rel(keeper, z);
      } else {
        assert z in done;
        var x :| x in s && rel(x, z);
        assert x !in t ==> rel(keeper, z);
      }
    }
  }

  // ---------------------------------------------------------------------
  // Active packages: identical ones are squashed, the priority decides
  // ---------------------------------------------------------------------

  const ACTIVE := Rules(false, true, true, false, false)

  predicate SameKey(key: PrimaryKey, x: Package, y: Package) {
    Matches(key, x, y)
  }

  /** x would be kept over z, or is as good as z. */
  predicate Dominates(x: Package, z: Package) {
    z.data.priority < x.data.priority || (z.data.priority == x.data.priority && Equals(x.data, z.data))
  }

  /** x is the entry for the key of z and at least as good as z. */
  function SpeaksFor(key: PrimaryKey): (Package, Package) -> bool {
    (x: Package, z: Package) => Matches(key, x, z) && Dominates(x, z)
  }

  function Valid(): Package -> bool {
    (z: Package) => IsValid(z)
  }

  /** The priority of a package is the result of evaluating its context. */
  predicate PriorityByContext(eval: string -> int, ps: seq<Package>) {
    forall x | x in ps :: x.data.priority == eval(x.data.context)
  }

  /** What s may look like once the packages of done were merged into it. */
  ghost predicate Survivors(key: PrimaryKey, s: seq<Package>, done: seq<Package>) {
    && DistinctKeys(key, s)
    && (forall x | x in s :: x in done && IsValid(x))
    && Covers(SpeaksFor(key), Valid(), s, done)
  }

  lemma DominatesTransitive(x: Package, y: Package, z: Package)
    requires Dominates(x, y) && Dominates(y, z)
    ensures Dominates(x, z)
  {
    EqualsIsEquivalence(x.data, y.data, z.data);
  }

  /** What one merge without error leaves: an entry that speaks for p, and all that p did not replace. */
  lemma ActiveEffect(eval: string -> int, key: PrimaryKey, s: seq<Package>, p: Package) returns (keeper: Package)
    requires IsValid(p) && PriorityByContext(eval, s + [p])
    requires Merge(ACTIVE, key, s, p).change != Failed
    ensures var t := Merge(ACTIVE, key, s, p).pkgs;
      && keeper in t && Matches(key, keeper, p) && Dominates(keeper, p)
      && (forall x | x in t :: x in s || x == p)
      && (forall x | x in s && x !in t :: keeper == p && Matches(key, x, p) && Dominates(p, x))
  {
    var i := FirstMatch(key, s, p);
    EqualsIsEquivalence(p.data, p.data, p.data);
    assert p in s + [p];
    keeper := p;
    if i < |s| {
      assert s[i] in s + [p];
      ActiveVerdict(eval, s[i], p);
      if !Decide(ACTIVE, Some(s[i]), p).appendNew {
        keeper := s[i];
      }
    }
  }

  /** A verdict other than an error is for the package that dominates. */
  lemma ActiveVerdict(eval: string -> int, cur: Package, p: Package)
    requires cur.data.priority == eval(cur.data.context) && p.data.priority == eval(p.data.context)
    ensures var d := Decide(ACTIVE, Some(cur), p);
      && (d == REPLACE ==> Dominates(p, cur))
      && (d == IGNORE ==> Dominates(cur, p))
      && d in {REPLACE, IGNORE, REJECT}
  {
    EqualsIsEquivalence(cur.data, p.data, p.data);
    EqualsIsEquivalence(cur.data, cur.data, p.data);
    if Equals(cur.data, p.data) {
      StrCmpZero(cur.data.context, p.data.context);
    }
  }

  lemma DominanceIsPassedOn(key: PrimaryKey, p: Package, x: Package, z: Package)
    requires Matches(key, x, p) && Dominates(p, x)
    requires Matches(key, x, z) && Dominates(x, z)
    ensures Matches(key, p, z) && Dominates(p, z)
  {
    MatchesIsKeyEquality(key, x, p);
    MatchesIsKeyEquality(key, x, z);
    MatchesIsKeyEquality(key, p, z);
    DominatesTransitive(p, x, z);
  }

  lemma ActiveStep(eval: string -> int, key: PrimaryKey, s: seq<Package>, done: seq<Package>, p: Package)
    requires Survivors(key, s, done)
    requires IsValid(p) && PriorityByContext(eval, done + [p])
    requires Merge(ACTIVE, key, s, p).change != Failed
    ensures Survivors(key, Merge(ACTIVE, key, s, p).pkgs, done + [p])
  {
    MergeKeepsKeysDistinct(ACTIVE, key, s, p);
    var t := Merge(ACTIVE, key, s, p).pkgs;
    var keeper := ActiveEffect(eval, key, s, p);
    forall x, z | x in s && x !in t && z in done && SpeaksFor(key)(x, z)
      ensures SpeaksFor(key)(keeper, z)
    {
      DominanceIsPassedOn(key, p, x, z);
    }
    CoversStep(SpeaksFor(key), Valid(), s, t, done, p, keeper);
  }

  lemma {:induction false} ActiveRun(eval: string -> int, key: PrimaryKey, s: seq<Package>, done: seq<Package>, ps: seq<Package>)
    requires Survivors(key, s, done)
    requires PriorityByContext(eval, done + ps)
    requires MergeAll(ACTIVE, key, s, ps).change != Failed
    ensures Survivors(key, MergeAll(ACTIVE, key, s, ps).pkgs, done + ps)
    decreases |ps|
  {
    if ps == [] {
      assert done + ps == done;
    } else {
      var next := done + [ps[0]];
      assert done + ps == next + ps[1..];
      if IsValid(ps[0]) {
        ActiveStep(eval, key, s, done, ps[0]);
        ActiveRun(eval, key, Merge(ACTIVE, key, s, ps[0]).pkgs, next, ps[1..]);
      } else {
        assert Survivors(key, s, next);
        ActiveRun(eval, key, s, next, ps[1..]);
      }
    }
  }

  /**
   After a run without errors every merged package has exactly one survivor with
   its key, which was merged itself and has the greatest priority merged for it.
   */
  lemma ActiveSurvivors(eval: string -> int, key: PrimaryKey, ps: seq<Package>)
    requires PriorityByContext(eval, ps)
    requires MergeAll(ACTIVE, key, [], ps).change != Failed
    ensures Survivors(key, MergeAll(ACTIVE, key, [], ps).pkgs, ps)
  {
    assert [] + ps == ps;
    ActiveRun(eval, key, [], [], ps);
  }

  /** y is an equal package to x, with its key and priority. */
  function SameAs(key: PrimaryKey): (Package, Package) -> bool {
    (y: Package, x: Package) => SameKey(key, x, y) && Equals(x.data, y.data) && x.data.priority == y.data.priority
  }

  /** Each entry of s has an equal entry in t with the same key and priority. */
  ghost predicate AgreesWith(key: PrimaryKey, s: seq<Package>, t: seq<Package>) {
    forall x | x in s :: Covered(SameAs(key), t, x)
  }

  /** No package of done has a greater priority than the entry of s for its key. */
  predicate NoneGreater(key: PrimaryKey, s: seq<Package>, done: seq<Package>) {
    forall x, z | x in s && z in done && IsValid(z) && SameKey(key, x, z) :: z.data.priority <= x.data.priority
  }

  /**
   Two orders of the same packages that both merge without error end with the
   same survivors, up to equality of packages.
   */
  lemma ActiveOrderIndependent(eval: string -> int, key: PrimaryKey, ps: seq<Package>, qs: seq<Package>)
    requires multiset(ps) == multiset(qs)
    requires PriorityByContext(eval, ps)
    requires MergeAll(ACTIVE, key, [], ps).change != Failed
    requires MergeAll(ACTIVE, key, [], qs).change != Failed
    ensures AgreesWith(key, MergeAll(ACTIVE, key, [], ps).pkgs, MergeAll(ACTIVE, key, [], qs).pkgs)
    ensures AgreesWith(key, MergeAll(ACTIVE, key, [], qs).pkgs, MergeAll(ACTIVE, key, [], ps).pkgs)
    ensures NoneGreater(key, MergeAll(ACTIVE, key, [], ps).pkgs, ps)
  {
    SameElements(ps, qs);
    SameElements(qs, ps);
    ActiveSurvivors(eval, key, ps);
    assert PriorityByContext(eval, qs);
    ActiveSurvivors(eval, key, qs);
    var s, t := MergeAll(ACTIVE, key, [], ps).pkgs, MergeAll(ACTIVE, key, [], qs).pkgs;
    SurvivorsAgree(key, s, t, ps, qs);
    SurvivorsAgree(key, t, s, qs, ps);
    SurvivorsAreGreatest(key, s, ps);
  }

  lemma SurvivorsAreGreatest(key: PrimaryKey, s: seq<Package>, done: seq<Package>)
    requires Survivors(key, s, done)
    ensures NoneGreater(key, s, done)
  {
    forall x, z | x in s && z in done && IsValid(z) && SameKey(key, x, z)
      ensures z.data.priority <= x.data.priority
    {
      assert Covered(SpeaksFor(key), s, z);
      var w :| w in s && Matches(key, w, z) && Dominates(w, z);
      OnlyOneSurvivor(key, s, x, w, z);
    }
  }

  lemma SameElements(ps: seq<Package>, qs: seq<Package>)
    requires multiset(ps) == multiset(qs)
    ensures forall x | x in ps :: x in qs
  {
    forall x | x in ps ensures x in qs {
      assert x in multiset(ps);
    }
  }

  lemma OnlyOneSurvivor(key: PrimaryKey, s: seq<Package>, x: Package, w: Package, z: Package)
    requires DistinctKeys(key, s) && x in s && w in s
    requires Matches(key, x, z) && Matches(key, w, z)
    ensures x == w
  {
    MatchesIsKeyEquality(key, x, z);
    MatchesIsKeyEquality(key, w, z);
    MatchesIsKeyEquality(key, x, w);
    MatchesIsKeyEquality(key, w, x);
    var i :| 0 <= i < |s| && s[i] == x;
    var j :| 0 <= j < |s| && s[j] == w;
    if i < j {
      assert Matches(key, s[i], s[j]);
    } else if j < i {
      assert Matches(key, s[j], s[i]);
    }
  }

  lemma SurvivorsAgree(key: PrimaryKey, s: seq<Package>, t: seq<Package>, ps: seq<Package>, qs: seq<Package>)
    requires Survivors(key, s, ps) && Survivors(key, t, qs)
    requires forall x | x in ps :: x in qs
    requires forall x | x in qs :: x in ps
    ensures AgreesWith(key, s, t)
  {
    forall x | x in s ensures Covered(SameAs(key), t, x) {
      assert x in qs && IsValid(x) && Covered(SpeaksFor(key), t, x);
      var y :| y in t && Matches(key, y, x) && Dominates(y, x);
      assert y in ps && IsValid(y) && Covered(SpeaksFor(key), s, y);
      var w :| w in s && Matches(key, w, y) && Dominates(w, y);
      MatchesIsKeyEquality(key, y, x);
      MatchesIsKeyEquality(key, x, y);
      MatchesIsKeyEquality(key, w, y);
      OnlyOneSurvivor(key, s, x, w, y);
      EqualsIsEquivalence(y.data, x.data, x.data);
      assert SameAs(key)(y, x);
    }
  }

  /** Two different packages of one key between which the priority cannot decide. */
  predicate Conflict(key: PrimaryKey, x: Package, y: Package) {
    SameKey(key, x, y) && x.data.priority == y.data.priority && !Equals(x.data, y.data)
  }

  predicate ConflictFree(key: PrimaryKey, ps: seq<Package>) {
    forall x, y | x in ps && y in ps && IsValid(x) && IsValid(y) :: !Conflict(key, x, y)
  }

  lemma ConflictFreeStep(key: PrimaryKey, s: seq<Package>, p: Package)
    requires AllValid(s) && IsValid(p)
    requires forall x | x in s :: !Conflict(key, x, p)
    ensures var m := Merge(ACTIVE, key, s, p);
      m.change != Failed && AllValid(m.pkgs) && forall x | x in m.pkgs :: x in s || x == p
  {
    var i := FirstMatch(key, s, p);
    if i < |s| {
      assert s[i] in s;
    }
  }

  lemma {:induction false} ConflictFreeRunsSucceed(key: PrimaryKey, s: seq<Package>, ps: seq<Package>)
    requires AllValid(s) && ConflictFree(key, s + ps)
    ensures MergeAll(ACTIVE, key, s, ps).change != Failed
    decreases |ps|
  {
    if ps != [] {
      var p := ps[0];
      var rest := s;
      if IsValid(p) {
        assert p in s + ps && forall x | x in s :: x in s + ps && IsValid(x);
        ConflictFreeStep(key, s, p);
        rest := Merge(ACTIVE, key, s, p).pkgs;
      }
      assert forall x | x in rest + ps[1..] :: x in s + ps;
      ConflictFreeRunsSucceed(key, rest, ps[1..]);
    }
  }

  /**
   Every order of some packages merges without error exactly when no two of them
   conflict: without a conflict no order fails, and with one an order that
   starts with the two does.
   */
  lemma ActiveMergesInEveryOrder(key: PrimaryKey, ps: seq<Package>)
    ensures ConflictFree(key, ps) <==>
            forall qs: seq<Package> | multiset(qs) == multiset(ps) && (forall q | q in qs :: q in ps) ::
              MergeAll(ACTIVE, key, [], qs).change != Failed
  {
    if ConflictFree(key, ps) {
      forall qs: seq<Package> | multiset(qs) == multiset(ps) && (forall q | q in qs :: q in ps)
        ensures MergeAll(ACTIVE, key, [], qs).change != Failed
      {
        assert [] + qs == qs;
        ConflictFreeRunsSucceed(key, [], qs);
      }
    } else {
      var x, y :| x in ps && y in ps && IsValid(x) && IsValid(y) && Conflict(key, x, y);
      EqualsIsEquivalence(x.data, x.data, x.data);
      var qs := ConflictFirst(ps, x, y);
      ConflictFails(key, qs, x, y);
    }
  }

  lemma ConflictFails(key: PrimaryKey, qs: seq<Package>, x: Package, y: Package)
    requires |qs| >= 2 && qs[0] == x && qs[1] == y
    requires IsValid(x) && IsValid(y) && Conflict(key, x, y)
    ensures MergeAll(ACTIVE, key, [], qs).change == Failed
  {
    EqualsIsEquivalence(x.data, x.data, x.data);
    assert Merge(ACTIVE, key, [], x) == Merged(Added, [x]);
    assert FirstMatch(key, [x], y) == 0;
    assert Merge(ACTIVE, key, [x], y).change == Failed;
    assert qs[1..][0] == y;
  }

  lemma ConflictFirst(ps: seq<Package>, x: Package, y: Package) returns (qs: seq<Package>)
    requires x in ps && y in ps && x != y
    ensures |qs| >= 2 && qs[0] == x && qs[1] == y
    ensures multiset(qs) == multiset(ps)
    ensures forall q | q in qs :: q in ps
  {
    var i :| 0 <= i < |ps| && ps[i] == x;
    var us := Without(ps, i);
    WithoutMultiset(ps, i);
    var j :| 0 <= j < |us| && us[j] == y;
    WithoutMultiset(us, j);
    qs := [x, y] + Without(us, j);
  }

  // ---------------------------------------------------------------------
  // Prefixes
  // ---------------------------------------------------------------------

  const PREFIX_ONLY := Rules(false, false, false, true, false)

  /**
   With the prefix rule on and keys distinct, a merge drops a pinned entry
   exactly when the new package has no prefix and another rule replaces it.
   */
  lemma PinnedLostExactly(rules: Rules, key: PrimaryKey, s: seq<Package>, p: Package, x: Package)
    requires rules.usePrefix && DistinctKeys(key, s)
    requires x in s && x.data.prefix == PREFIX_PIN
    ensures x !in Merge(rules, key, s, p).pkgs <==>
            && IsValid(p) && p != x && p.data.prefix == PREFIX_NONE && Matches(key, x, p)
            && (|| (rules.squash && Equals(x.data, p.data))
                || (!rules.keepAll && rules.replace)
                || (!rules.keepAll && rules.usePriority && p.data.priority > x.data.priority))
  {
    var i := FirstMatch(key, s, p);
    if i < |s| {
      NoSecondMatch(key, s, p);
    }
  }

  lemma {:induction false} PinnedStays(key: PrimaryKey, s: seq<Package>, ps: seq<Package>, x: Package)
    requires DistinctKeys(key, s)
    requires x in s && x.data.prefix == PREFIX_PIN
    ensures x in Run(PREFIX_ONLY, key, s, ps)
    decreases |ps|
  {
    if ps != [] {
      PinnedLostExactly(PREFIX_ONLY, key, s, ps[0], x);
      MergeKeepsKeysDistinct(PREFIX_ONLY, key, s, ps[0]);
      PinnedStays(key, Merge(PREFIX_ONLY, key, s, ps[0]).pkgs, ps[1..], x);
    }
  }

  lemma {:induction false} RunKeepsKeysDistinct(rules: Rules, key: PrimaryKey, s: seq<Package>, ps: seq<Package>)
    requires !rules.keepAll && DistinctKeys(key, s)
    ensures DistinctKeys(key, Run(rules, key, s, ps))
    decreases |ps|
  {
    if ps != [] {
      MergeKeepsKeysDistinct(rules, key, s, ps[0]);
      RunKeepsKeysDistinct(rules, key, Merge(rules, key, s, ps[0]).pkgs, ps[1..]);
    }
  }

  lemma {:induction false} RunSplits(rules: Rules, key: PrimaryKey, s: seq<Package>, ps: seq<Package>, qs: seq<Package>)
    ensures Run(rules, key, s, ps + qs) == Run(rules, key, Run(rules, key, s, ps), qs)
    decreases |ps|
  {
    if ps == [] {
      assert ps + qs == qs;
    } else {
      assert (ps + qs)[1..] == ps[1..] + qs;
      RunSplits(rules, key, Merge(rules, key, s, ps[0]).pkgs, ps[1..], qs);
    }
  }

  /** Under the prefix rule alone, a package pinned at any point of a run outlives it. */
  lemma PinnedIsForever(key: PrimaryKey, ps: seq<Package>, qs: seq<Package>, x: Package)
    requires x in Run(PREFIX_ONLY, key, [], ps) && x.data.prefix == PREFIX_PIN
    ensures x in Run(PREFIX_ONLY, key, [], ps + qs)
  {
    RunKeepsKeysDistinct(PREFIX_ONLY, key, [], ps);
    RunSplits(PREFIX_ONLY, key, [], ps, qs);
    PinnedStays(key, Run(PREFIX_ONLY, key, [], ps), qs, x);
  }

  /** x is the entry for the key of z and its version is no less. */
  function AtLeast(key: PrimaryKey): (Package, Package) -> bool {
    (x: Package, z: Package) => Matches(key, x, z) && CompareVersions(z.data, x.data) <= 0
  }

  /** What s looks like once only minimum-version packages, those of done, were merged. */
  ghost predicate Minimums(key: PrimaryKey, s: seq<Package>, done: seq<Package>) {
    && DistinctKeys(key, s)
    && (forall x | x in s :: x in done && x.data.prefix == PREFIX_MIN)
    && Covers(AtLeast(key), Valid(), s, done)
  }

  lemma MinimumEffect(rules: Rules, key: PrimaryKey, s: seq<Package>, p: Package) returns (keeper: Package)
    requires rules.usePrefix && p.data.prefix == PREFIX_MIN && IsValid(p)
    requires forall x | x in s :: x.data.prefix == PREFIX_MIN
    ensures var t := Merge(rules, key, s, p).pkgs;
      && keeper in t && Matches(key, keeper, p) && CompareVersions(p.data, keeper.data) <= 0
      && (forall x | x in t :: x in s || x == p)
      && (forall x | x in s && x !in t :: keeper == p && Matches(key, x, p) && CompareVersions(x.data, p.data) <= 0)
  {
    var i := FirstMatch(key, s, p);
    VersionLaws(p.data, p.data, p.data);
    if i == |s| {
      keeper := p;
    } else {
      assert s[i] in s && s[i].data.prefix == PREFIX_MIN;
      VersionLaws(p.data, s[i].data, p.data);
      if CompareVersions(p.data, s[i].data) <= 0 {
        keeper := s[i];
        assert Merge(rules, key, s, p).pkgs == s;
      } else {
        keeper := p;
        assert Merge(rules, key, s, p).pkgs == Without(s, i) + [p];
      }
    }
  }

  lemma MinimumStep(rules: Rules, key: PrimaryKey, s: seq<Package>, done: seq<Package>, p: Package)
    requires rules.usePrefix && p.data.prefix == PREFIX_MIN
    requires Minimums(key, s, done)
    ensures Minimums(key, Merge(rules, key, s, p).pkgs, done + [p])
  {
    if IsValid(p) {
      MergeKeepsKeysDistinct(rules, key, s, p);
      var t := Merge(rules, key, s, p).pkgs;
      var keeper := MinimumEffect(rules, key, s, p);
      forall x, z | x in s && x !in t && z in done && AtLeast(key)(x, z)
        ensures AtLeast(key)(keeper, z)
      {
        MatchesIsKeyEquality(key, x, p);
        MatchesIsKeyEquality(key, x, z);
        MatchesIsKeyEquality(key, p, z);
        VersionLaws(z.data, x.data, p.data);
      }
      CoversStep(AtLeast(key), Valid(), s, t, done, p, keeper);
    }
  }

  lemma {:induction false} MinimumRun(rules: Rules, key: PrimaryKey, s: seq<Package>, done: seq<Package>, ps: seq<Package>)
    requires rules.usePrefix && forall p | p in ps :: p.data.prefix == PREFIX_MIN
    requires Minimums(key, s, done)
    ensures Minimums(key, Run(rules, key, s, ps), done + ps)
    decreases |ps|
  {
    if ps == [] {
      assert done + ps == done;
    } else {
      var t, p, rest := Merge(rules, key, s, ps[0]).pkgs, ps[0], ps[1..];
      MinimumStep(rules, key, s, done, p);
      assert Minimums(key, Run(rules, key, t, rest), (done + [p]) + rest) by {
        MinimumRun(rules, key, t, done + [p], rest);
      }
      assert done + ps == (done + [p]) + rest;
    }
  }

  /**
   After merging only minimum-version packages into an empty list, each key has
   one entry, which was merged and whose version none merged for it exceeds.
   */
  lemma GreatestVersionSurvives(rules: Rules, key: PrimaryKey, ps: seq<Package>)
    requires rules.usePrefix && forall p | p in ps :: p.data.prefix == PREFIX_MIN
    ensures Minimums(key, Run(rules, key, [], ps), ps)
  {
    assert [] + ps == ps;
    MinimumRun(rules, key, [], [], ps);
  }
}

/**
 What the rules of a merge amount to: when a stored package is lost, when the new
 one is stored, and when the merge is refused.
 */
module MergeLaws {
  import opened PackageOrder
  import opened Merging

  /** The first package of its key, x, is lost when p is merged. */
  predicate GivesWay(rules: Rules, x: Package, p: Package) {
    if InForce(rules, p) then
      && x.data.prefix != PREFIX_PIN
      && (p.data.prefix in {PREFIX_ADD, PREFIX_REMOVE, PREFIX_PIN, PREFIX_UPDATE}
          || (p.data.prefix == PREFIX_MIN && CompareVersions(p.data, x.data) > 0))
    else
      || (rules.squash && Equals(x.data, p.data))
      || (!rules.keepAll && (rules.replace || (rules.usePriority && p.data.priority > x.data.priority)))
  }

  /** The merge of p is refused because of x. */
  predicate Refuses(rules: Rules, x: Package, p: Package) {
    if InForce(rules, p) then
      && x.data.prefix == PREFIX_PIN
      && (p.data.prefix in {PREFIX_ADD, PREFIX_REMOVE, PREFIX_PIN}
          || (p.data.prefix == PREFIX_MIN && CompareVersions(p.data, x.data) > 0))
    else
      && !rules.keepAll && !rules.replace
      && !(rules.squash && Equals(x.data, p.data))
      && !(rules.usePriority && p.data.priority != x.data.priority)
  }

  /** p is stored, besides x or in its place. */
  predicate EntersOver(rules: Rules, x: Package, p: Package) {
    if InForce(rules, p) then GivesWay(rules, x, p) && p.data.prefix != PREFIX_REMOVE
    else GivesWay(rules, x, p) || rules.keepAll
  }

  /** p is stored where its key has no package. */
  predicate EntersFresh(rules: Rules, p: Package) {
    !(InForce(rules, p) && p.data.prefix in {PREFIX_REMOVE, PREFIX_UPDATE})
  }

  function ChangeOf(lost: bool, stored: bool): Change {
    if lost then (if stored then Replaced else Removed) else if stored then Added else Unchanged
  }

  /** A key without a package. */
  lemma FreshMergeExactly(rules: Rules, key: PrimaryKey, s: seq<Package>, p: Package)
    requires IsValid(p) && FirstMatch(key, s, p) == |s|
    ensures Merge(rules, key, s, p)
         == Merged(ChangeOf(false, EntersFresh(rules, p)), if EntersFresh(rules, p) then s + [p] else s)
  {
  }

  /** A key whose first package is another one. */
  lemma StoredMergeExactly(rules: Rules, key: PrimaryKey, s: seq<Package>, p: Package, i: nat)
    requires IsValid(p) && i == FirstMatch(key, s, p) < |s| && s[i] != p
    ensures Merge(rules, key, s, p)
         == if Refuses(rules, s[i], p) then Merged(Failed, s)
            else
              var lost, stored := GivesWay(rules, s[i], p), EntersOver(rules, s[i], p);
              var rest := if lost then Without(s, i) else s;
              Merged(ChangeOf(lost, stored), if stored then rest + [p] else rest)
  {
  }

  /** A package that is stored first for its key already, and one that is not valid. */
  lemma IdleMergeExactly(rules: Rules, key: PrimaryKey, s: seq<Package>, p: Package)
    ensures !IsValid(p) ==> Merge(rules, key, s, p) == Merged(Failed, s)
    ensures IsValid(p) && FirstMatch(key, s, p) < |s| && s[FirstMatch(key, s, p)] == p ==>
              Merge(rules, key, s, p) == Merged(Unchanged, s)
  {
  }

  // ---------------------------------------------------------------------
  // One package of each key
  // ---------------------------------------------------------------------

  lemma MatchIsFirst(key: PrimaryKey, s: seq<Package>, p: Package, x: Package)
    requires DistinctKeys(key, s) && x in s && Matches(key, x, p)
    ensures var i := FirstMatch(key, s, p); i < |s| && s[i] == x
    ensures forall y | y in s && Matches(key, y, p) :: y == x
    ensures x !in Without(s, FirstMatch(key, s, p))
  {
    NoSecondMatch(key, s, p);
    var i := FirstMatch(key, s, p);
    assert forall y | y in s :: y == s[i] || y in Without(s, i);
  }

  /** A stored package is lost to a merge exactly when it is another one of that key, and gives way. */
  lemma LostExactly(rules: Rules, key: PrimaryKey, s: seq<Package>, p: Package, x: Package)
    requires DistinctKeys(key, s) && x in s
    ensures x !in Merge(rules, key, s, p).pkgs <==>
            IsValid(p) && x != p && Matches(key, x, p) && GivesWay(rules, x, p)
  {
    if !Matches(key, x, p) {
      if x != p {
        OtherKeysStay(rules, key, s, p, x);
      } else {
        MatchesIsKeyEquality(key, p, p);
      }
    } else {
      MatchIsFirst(key, s, p, x);
      IdleMergeExactly(rules, key, s, p);
      if IsValid(p) && x != p {
        StoredMergeExactly(rules, key, s, p, FirstMatch(key, s, p));
      }
    }
  }

  /** The new package is stored exactly when its key has none and it may come first, or the one there lets it in. */
  lemma StoredExactly(rules: Rules, key: PrimaryKey, s: seq<Package>, p: Package)
    requires DistinctKeys(key, s) && p !in s
    ensures p in Merge(rules, key, s, p).pkgs <==>
            && IsValid(p)
            && if exists x | x in s :: Matches(key, x, p) then exists x | x in s :: Matches(key, x, p) && EntersOver(rules, x, p)
               else EntersFresh(rules, p)
  {
    var i := FirstMatch(key, s, p);
    IdleMergeExactly(rules, key, s, p);
    if IsValid(p) {
      if i < |s| {
        MatchIsFirst(key, s, p, s[i]);
        StoredMergeExactly(rules, key, s, p, i);
        assert s[i] in s && Matches(key, s[i], p);
      } else {
        FreshMergeExactly(rules, key, s, p);
      }
    }
  }

  /** A merge is refused exactly when the package is not valid, or another one of its key refuses it. */
  lemma RefusedExactly(rules: Rules, key: PrimaryKey, s: seq<Package>, p: Package)
    requires DistinctKeys(key, s)
    ensures Merge(rules, key, s, p).change == Failed <==>
            !IsValid(p) || exists x | x in s :: x != p && Matches(key, x, p) && Refuses(rules, x, p)
  {
    var i := FirstMatch(key, s, p);
    IdleMergeExactly(rules, key, s, p);
    if IsValid(p) {
      if i < |s| {
        MatchIsFirst(key, s, p, s[i]);
        if s[i] != p {
          StoredMergeExactly(rules, key, s, p, i);
        }
        assert s[i] in s && Matches(key, s[i], p);
      } else {
        FreshMergeExactly(rules, key, s, p);
      }
    }
  }

  /** The packages of the key of p. */
  function OfKey(key: PrimaryKey, s: seq<Package>, p: Package): set<Package> {
    set x | x in s && Matches(key, x, p)
  }

  /** What each prefix makes of another, unpinned package of the key: `+`, `!` and `?` replace it, `~` keeps it, `-` removes it, and `>` leaves the greater version. */
  lemma PrefixOverStored(rules: Rules, key: PrimaryKey, s: seq<Package>, p: Package, x: Package)
    requires rules.usePrefix && p.data.prefix != PREFIX_NONE && IsValid(p) && DistinctKeys(key, s)
    requires x in s && x != p && Matches(key, x, p) && x.data.prefix != '!'
    ensures var m := Merge(rules, key, s, p);
      && m.change != Failed
      && OfKey(key, m.pkgs, p) ==
         match p.data.prefix
         case '-' => {}
         case '~' => {x}
         case '>' => if CompareVersions(p.data, x.data) > 0 then {p} else {x}
         case _ => {p}
  {
    MatchIsFirst(key, s, p, x);
    var i := FirstMatch(key, s, p);
    StoredMergeExactly(rules, key, s, p, i);
    MatchesIsKeyEquality(key, p, p);
    assert forall y | y in s :: y == s[i] || y in Without(s, i);
  }

  /** A pinned package stays the one of its key; of the others, `+`, `-` and `!`, and `>` with a greater version, are refused. */
  lemma PrefixOverPinned(rules: Rules, key: PrimaryKey, s: seq<Package>, p: Package, x: Package)
    requires rules.usePrefix && p.data.prefix != PREFIX_NONE && IsValid(p) && DistinctKeys(key, s)
    requires x in s && x != p && Matches(key, x, p) && x.data.prefix == '!'
    ensures var m := Merge(rules, key, s, p);
      && m.pkgs == s && OfKey(key, s, p) == {x}
      && m.change == match p.data.prefix
                     case '?' => Unchanged
                     case '~' => Unchanged
                     case '>' => if CompareVersions(p.data, x.data) > 0 then Failed else Unchanged
                     case _ => Failed
  {
    MatchIsFirst(key, s, p, x);
    StoredMergeExactly(rules, key, s, p, FirstMatch(key, s, p));
  }

  /** Where the key has no package, `-` and `?` do nothing and any other prefix stores the new one. */
  lemma PrefixOverNone(rules: Rules, key: PrimaryKey, s: seq<Package>, p: Package)
    requires rules.usePrefix && p.data.prefix != PREFIX_NONE && IsValid(p)
    requires OfKey(key, s, p) == {}
    ensures var m := Merge(rules, key, s, p);
      if p.data.prefix == '-' || p.data.prefix == '?' then m == Merged(Unchanged, s) else m == Merged(Added, s + [p])
  {
    assert FirstMatch(key, s, p) == |s| by {
      assert forall x | x in s :: Matches(key, x, p) ==> x in OfKey(key, s, p);
    }
    FreshMergeExactly(rules, key, s, p);
  }

  /** Packages of other keys are never touched. */
  lemma OtherKeysStay(rules: Rules, key: PrimaryKey, s: seq<Package>, p: Package, x: Package)
    requires !Matches(key, x, p) && x != p
    ensures x in Merge(rules, key, s, p).pkgs <==> x in s
  {
  }

  // ---------------------------------------------------------------------
  // Runs of additions and updates
  // ---------------------------------------------------------------------

  /** Additions and updates of packages. */
  predicate Updating(ps: seq<Package>) {
    forall k | 0 <= k < |ps| :: IsValid(ps[k]) && ps[k].data.prefix in {PREFIX_ADD, PREFIX_UPDATE}
  }

  predicate Unpinned(s: seq<Package>) {
    forall x | x in s :: x.data.prefix != PREFIX_PIN
  }

  lemma UpdateStep(rules: Rules, key: PrimaryKey, s: seq<Package>, p: Package)
    requires rules.usePrefix && IsValid(p) && p.data.prefix in {PREFIX_ADD, PREFIX_UPDATE}
    requires DistinctKeys(key, s) && Unpinned(s)
    ensures var t := Merge(rules, key, s, p).pkgs;
      && DistinctKeys(key, t) && Unpinned(t)
      && OfKey(key, t, p) == if p.data.prefix == PREFIX_ADD || OfKey(key, s, p) != {} then {p} else {}
  {
    MergeKeepsKeysDistinct(rules, key, s, p);
    MatchesIsKeyEquality(key, p, p);
    if x :| x in s && Matches(key, x, p) {
      assert x in OfKey(key, s, p);
      if x == p {
        MatchIsFirst(key, s, p, p);
        IdleMergeExactly(rules, key, s, p);
        assert OfKey(key, s, p) == {p};
      } else {
        PrefixOverStored(rules, key, s, p, x);
      }
    } else {
      assert OfKey(key, s, p) == {};
      PrefixOverNone(rules, key, s, p);
    }
  }

  lemma SameKeySet(key: PrimaryKey, s: seq<Package>, p: Package, q: Package)
    requires Matches(key, p, q)
    ensures OfKey(key, s, p) == OfKey(key, s, q)
  {
    MatchesIsKeyEquality(key, p, q);
    forall x | x in s ensures Matches(key, x, p) <==> Matches(key, x, q) {
      MatchesIsKeyEquality(key, x, p);
      MatchesIsKeyEquality(key, x, q);
    }
  }

  /** The last package of the key of p in ps, if the key had one before or it is added; what was there if there is none. */
  function Latest(key: PrimaryKey, there: set<Package>, ps: seq<Package>, p: Package): set<Package>
    decreases |ps|
  {
    if ps == [] then there
    else
      var q := ps[0];
      Latest(key, if Matches(key, q, p) && (q.data.prefix == PREFIX_ADD || there != {}) then {q} else there, ps[1..], p)
  }

  /**
   After a run of additions and updates of unpinned packages, each key has the last
   of them, where it had a package before or got one by an addition.
   */
  lemma {:induction false} LatestSurvives(rules: Rules, key: PrimaryKey, s: seq<Package>, ps: seq<Package>, p: Package)
    requires rules.usePrefix && Updating(ps) && DistinctKeys(key, s) && Unpinned(s)
    ensures OfKey(key, Run(rules, key, s, ps), p) == Latest(key, OfKey(key, s, p), ps, p)
    decreases |ps|
  {
    if ps != [] {
      var q, t := ps[0], Merge(rules, key, s, ps[0]).pkgs;
      UpdateStep(rules, key, s, q);
      LatestSurvives(rules, key, t, ps[1..], p);
      if Matches(key, q, p) {
        SameKeySet(key, s, q, p);
        SameKeySet(key, t, q, p);
      } else {
        forall x | Matches(key, x, p) ensures x in t <==> x in s {
          OtherKey(key, x, q, p);
          OtherKeysStay(rules, key, s, q, x);
        }
        assert OfKey(key, t, p) == OfKey(key, s, p);
      }
    }
  }

  lemma OtherKey(key: PrimaryKey, x: Package, q: Package, p: Package)
    requires Matches(key, x, p) && !Matches(key, q, p)
    ensures !Matches(key, x, q) && x != q
  {
    MatchesIsKeyEquality(key, x, p);
    MatchesIsKeyEquality(key, q, p);
    MatchesIsKeyEquality(key, x, q);
  }

  /** So a package that is added or updates one, and after which no other of its key comes, is the one that is left. */
  lemma LastIsLeft(rules: Rules, key: PrimaryKey, s: seq<Package>, ps: seq<Package>, p: Package, qs: seq<Package>)
    requires rules.usePrefix && Updating(ps + [p] + qs) && DistinctKeys(key, s) && Unpinned(s)
    requires forall q | q in qs :: !Matches(key, q, p)
    requires p.data.prefix == PREFIX_ADD || OfKey(key, s, p) != {}
    ensures OfKey(key, Run(rules, key, s, ps + [p] + qs), p) == {p}
  {
    LatestSurvives(rules, key, s, ps + [p] + qs, p);
    MatchesIsKeyEquality(key, p, p);
    LatestIs(key, OfKey(key, s, p), ps, p, qs);
  }

  lemma {:induction false} LatestIs(key: PrimaryKey, there: set<Package>, ps: seq<Package>, p: Package, qs: seq<Package>)
    requires Matches(key, p, p) && (p.data.prefix == PREFIX_ADD || there != {})
    requires forall q | q in qs :: !Matches(key, q, p)
    ensures Latest(key, there, ps + [p] + qs, p) == {p}
    decreases |ps|
  {
    var all := ps + [p] + qs;
    if ps == [] {
      assert all[0] == p && all[1..] == qs;
      LatestStays(key, {p}, qs, p);
    } else {
      assert all[0] == ps[0] && all[1..] == ps[1..] + [p] + qs;
      var next := if Matches(key, ps[0], p) && (ps[0].data.prefix == PREFIX_ADD || there != {}) then {ps[0]} else there;
      LatestIs(key, next, ps[1..], p, qs);
    }
  }

  lemma {:induction false} LatestStays(key: PrimaryKey, there: set<Package>, qs: seq<Package>, p: Package)
    requires forall q | q in qs :: !Matches(key, q, p)
    ensures Latest(key, there, qs, p) == there
    decreases |qs|
  {
    if qs != [] {
      LatestStays(key, there, qs[1..], p);
    }
  }

  // ---------------------------------------------------------------------
  // What merging a list reports
  // ---------------------------------------------------------------------

  /** The changes that the merges of valid packages report one by one, up to the first error. */
  function Reports(rules: Rules, key: PrimaryKey, s: seq<Package>, ps: seq<Package>): seq<Change>
    decreases |ps|
  {
    if ps == [] then []
    else if !IsValid(ps[0]) then Reports(rules, key, s, ps[1..])
    else
      var m := Merge(rules, key, s, ps[0]);
      [m.change] + if m.change == Failed then [] else Reports(rules, key, m.pkgs, ps[1..])
  }

  predicate NoneChanged(reports: seq<Change>) {
    forall k | 0 <= k < |reports| :: reports[k] == Unchanged
  }

  lemma ReportsCons(c: Change, reports: seq<Change>)
    ensures NoneChanged([c] + reports) <==> c == Unchanged && NoneChanged(reports)
    ensures Failed in [c] + reports <==> c == Failed || Failed in reports
  {
    var all := [c] + reports;
    assert all[0] == c && forall k | 0 <= k < |reports| :: reports[k] == all[k + 1];
  }

  /** One report for all of a run: an error if there was one, a modification if anything changed. */
  predicate Summarises(change: Change, reports: seq<Change>) {
    && change in {Failed, Unchanged, Modified}
    && (change == Failed <==> Failed in reports)
    && (change == Unchanged <==> NoneChanged(reports))
  }

  lemma SummaryStep(c: Change, rest: Change, reports: seq<Change>)
    requires c != Failed && Summarises(rest, reports)
    ensures Summarises(if rest == Unchanged && c != Unchanged then Modified else rest, [c] + reports)
  {
    ReportsCons(c, reports);
  }

  /** Merging a list reports no change exactly when each merge did, and a modification when none failed and some did not. */
  lemma {:induction false} MergeAllReports(rules: Rules, key: PrimaryKey, s: seq<Package>, ps: seq<Package>)
    ensures Summarises(MergeAll(rules, key, s, ps).change, Reports(rules, key, s, ps))
    decreases |ps|
  {
    if ps != [] {
      if IsValid(ps[0]) {
        var m := Merge(rules, key, s, ps[0]);
        if m.change == Failed {
          assert Reports(rules, key, s, ps) == [Failed] + [];
          ReportsCons(Failed, []);
        } else {
          MergeAllReports(rules, key, m.pkgs, ps[1..]);
          SummaryStep(m.change, MergeAll(rules, key, m.pkgs, ps[1..]).change, Reports(rules, key, m.pkgs, ps[1..]));
        }
      } else {
        MergeAllReports(rules, key, s, ps[1..]);
      }
    }
  }
}

/**
 Exactly when a package set, under any rules, goes on holding what one flat list
 holds: how far emptied buckets hide other names, and what a resize restores.
 */
module ExactSets {
  import opened Merging
  import opened Remerging
  import opened Probing
  import opened Buckets
  import opened SetRuns

  /**
   Once the bucket in slot i has been emptied, the packages in slot j are found
   exactly when their search did not pass over slot i.
   */
  lemma EmptiedBucketHidesExactly(hash: string -> nat, b: Table, i: nat, j: nat, name: string)
    requires i < |b| && j < |b| && i != j
    requires Sound(hash, Keys(b)) && b[i] != [] && SlotKey(b[j]) == Full(name)
    ensures ListFor(hash, b[i := []], name) == if PassesOver(hash, Keys(b), j, i) then [] else b[j]
  {
    var t, c := Keys(b), b[i := []];
    var u := Keys(c);
    var h := Home(hash, t, name);
    assert u == t[i := Free] && Home(hash, u, name) == h;
    assert Reachable(hash, t, j);
    var stop := if PassesOver(hash, t, j, i) then i else j;
    forall e | 0 <= e < Distance(h, stop, |u|)
      ensures u[SlotAt(h, e, |u|)].Full? && u[SlotAt(h, e, |u|)].key != name
    {
      assert t[SlotAt(h, e, |t|)].Full?;
      assert SlotAt(h, e, |t|) != j;
      assert SlotAt(h, e, |t|) != i;
    }
    ProbeFromReaches(u, h, name, 0, stop);
  }

  // ---------------------------------------------------------------------
  // Exactly when a merge keeps the set and the flat list together
  // ---------------------------------------------------------------------

  /** For every name the set holds the very packages that the flat list holds. */
  ghost predicate TracksExactly(hash: string -> nat, b: Table, flat: seq<Package>)
    requires |b| > 0
  {
    forall name: string :: ListFor(hash, b, name) == ByName(flat, name)
  }

  /** The state of a set whose chains have not been broken. */
  ghost predicate Intact(hash: string -> nat, rules: Rules, b: Table) {
    |b| > 0 && Loaded(b) && AllUniform(rules, b) && Sound(hash, Keys(b))
  }

  predicate AllRebuild(rules: Rules, key: PrimaryKey, b: Table) {
    forall i | 0 <= i < |b| :: Rebuilds(rules, key, b[i])
  }

  /** Whether some package is found by passing over slot i. */
  predicate PassedOver(hash: string -> nat, b: Table, i: nat)
    requires i < |b|
  {
    exists j | 0 <= j < |b| && j != i && b[j] != [] :: PassesOver(hash, Keys(b), j, i)
  }

  predicate Empties(hash: string -> nat, rules: Rules, key: PrimaryKey, b: Table, p: Package)
    requires |b| > 0
  {
    var l := ListFor(hash, b, p.data.name);
    IsValid(p) && l != [] && Merge(rules, key, l, p).pkgs == []
  }

  /** No bucket that others were probed through is emptied, and a resize that is due restores every list. */
  predicate Harmless(hash: string -> nat, rules: Rules, key: PrimaryKey, b: Table, p: Package)
    requires |b| > 0
  {
    var c := Put(hash, rules, key, b, p).buckets;
    && (Empties(hash, rules, key, b, p) ==> !PassedOver(hash, b, Find(hash, b, p.data.name)))
    && (!Loaded(c) ==> AllRebuild(rules, key, c))
  }

  lemma EmptyingTracksExactly(hash: string -> nat, rules: Rules, key: PrimaryKey, b: Table, flat: seq<Package>, p: Package)
    requires Intact(hash, rules, b) && TracksExactly(hash, b, flat) && Empties(hash, rules, key, b, p)
    ensures var i, c := Find(hash, b, p.data.name), Put(hash, rules, key, b, p).buckets;
      && c == b[i := []] && Loaded(c)
      && (Sound(hash, Keys(c)) <==> !PassedOver(hash, b, i))
      && (TracksExactly(hash, c, Merge(rules, key, flat, p).pkgs) <==> !PassedOver(hash, b, i))
  {
    var own := p.data.name;
    var i := Find(hash, b, own);
    var c, after := b[i := []], Merge(rules, key, flat, p).pkgs;
    assert Keys(c) == Keys(b)[i := Free];
    FullCountUpdate(Keys(b), i, Free);
    FreeKeepsChainsExactly(hash, Keys(b), i);
    if PassedOver(hash, b, i) {
      var j :| 0 <= j < |b| && j != i && b[j] != [] && PassesOver(hash, Keys(b), j, i);
      var name := b[j][0].data.name;
      assert Keys(b)[i] == Full(own) && Keys(b)[j] == Full(name) && name != own;
      EmptiedBucketHidesExactly(hash, b, i, j, name);
      ListForStored(hash, b, name, j);
      MergeByName(rules, key, flat, p, name);
      assert ListFor(hash, c, name) != ByName(after, name);
    } else {
      forall name: string ensures ListFor(hash, c, name) == ByName(after, name) {
        PutAtListFor(hash, b, i, [], own, name);
        MergeByName(rules, key, flat, p, name);
      }
    }
  }

  lemma PuttingTracks(hash: string -> nat, rules: Rules, key: PrimaryKey, b: Table, flat: seq<Package>, p: Package)
    requires Intact(hash, rules, b) && TracksExactly(hash, b, flat) && !Empties(hash, rules, key, b, p)
    ensures var r, m := Put(hash, rules, key, b, p), Merge(rules, key, flat, p);
      && r.change == m.change && Sound(hash, Keys(r.buckets)) && AllUniform(rules, r.buckets)
      && TracksExactly(hash, r.buckets, m.pkgs)
  {
    var c, after := Put(hash, rules, key, b, p).buckets, Merge(rules, key, flat, p).pkgs;
    if IsValid(p) {
      PutShape(hash, rules, key, b, p);
      PutKeepsSound(hash, rules, key, b, p);
      PutListFor(hash, rules, key, b, p, "");
      MergeByName(rules, key, flat, p, "");
      forall name: string ensures ListFor(hash, c, name) == ByName(after, name) {
        PutListFor(hash, rules, key, b, p, name);
        MergeByName(rules, key, flat, p, name);
      }
    }
  }

  lemma BucketRebuilds(rules: Rules, key: PrimaryKey, b: Table, i: nat)
    requires AllUniform(rules, b) && i < |b|
    ensures var m := MergeAll(rules, key, [], b[i]);
      (m.pkgs == b[i] <==> Rebuilds(rules, key, b[i])) && (m.pkgs == b[i] ==> m.change != Failed)
  {
    RemergeIsExact(rules, key, b[i]);
  }

  /** A resize of an intact table that is due loses nothing exactly when every list rebuilds. */
  lemma ResizeTracksExactly(hash: string -> nat, rules: Rules, key: PrimaryKey, b: Table, flat: seq<Package>)
    requires |b| > 0 && AllUniform(rules, b) && Sound(hash, Keys(b)) && !Loaded(b)
    requires TracksExactly(hash, b, flat)
    ensures var c := Resize(hash, rules, key, b);
      (c.Some? && TracksExactly(hash, c.value, flat)) <==> AllRebuild(rules, key, b)
  {
    var c := Resize(hash, rules, key, b);
    ResizeListFor(hash, rules, key, b, "");
    if AllRebuild(rules, key, b) {
      forall name: string
        ensures var m := MergeAll(rules, key, [], FromSlot(b, 0, name)); m.pkgs == ByName(flat, name) && m.change != Failed
      {
        ListForIsFromSlot(hash, b, name);
        var i := Find(hash, b, name);
        if i < |b| {
          BucketRebuilds(rules, key, b, i);
        }
      }
      forall name: string ensures c.Some? && ListFor(hash, c.value, name) == ByName(flat, name) {
        ResizeListFor(hash, rules, key, b, name);
      }
    } else {
      var i :| 0 <= i < |b| && !Rebuilds(rules, key, b[i]);
      var name := b[i][0].data.name;
      BucketRebuilds(rules, key, b, i);
      BucketIsListFor(hash, b, i);
      ListForIsFromSlot(hash, b, name);
      ResizeListFor(hash, rules, key, b, name);
      assert ByName(flat, name) == b[i];
    }
  }

  /**
   Under any rules, a merge into an intact set that agrees with the flat list leaves a
   set that does exactly when it is harmless. The change reported is that of the list.
   */
  lemma SetMergeTracksExactly(hash: string -> nat, rules: Rules, key: PrimaryKey, b: Table, flat: seq<Package>, p: Package)
    requires Intact(hash, rules, b) && TracksExactly(hash, b, flat)
    ensures var r, m := SetMerge(hash, rules, key, b, p), Merge(rules, key, flat, p);
      && (r.Running? && TracksExactly(hash, r.buckets, m.pkgs) <==> Harmless(hash, rules, key, b, p))
      && (Harmless(hash, rules, key, b, p) ==> Intact(hash, rules, r.buckets))
      && (r.Running? ==> r.change == m.change)
  {
    var c, m := Put(hash, rules, key, b, p).buckets, Merge(rules, key, flat, p);
    SetMergeKeepsLoad(hash, rules, key, b, p);
    if IsValid(p) {
      MergeByName(rules, key, flat, p, "");
    }
    if Empties(hash, rules, key, b, p) {
      EmptyingTracksExactly(hash, rules, key, b, flat, p);
    } else {
      PuttingTracks(hash, rules, key, b, flat, p);
      if !Loaded(c) {
        PutOnlyFillsFree(hash, rules, key, b, p);
        ResizeTracksExactly(hash, rules, key, c, m.pkgs);
        ResizeHalvesLoad(hash, rules, key, c);
      }
    }
  }

  predicate NoUpdateStored(b: Table) {
    forall i, k | 0 <= i < |b| && 0 <= k < |b[i]| :: b[i][k].data.prefix != PREFIX_UPDATE
  }

  /**
   With the prefix rule on and one package of each key, that is: an emptied bucket is
   passed over by no stored name, and no update is stored when the merge resizes.
   */
  lemma HarmlessByPrefix(hash: string -> nat, rules: Rules, key: PrimaryKey, b: Table, p: Package)
    requires rules.usePrefix && !rules.keepAll
    requires Intact(hash, rules, b) && forall i | 0 <= i < |b| :: DistinctKeys(key, b[i])
    ensures var c := Put(hash, rules, key, b, p).buckets;
      Harmless(hash, rules, key, b, p) <==>
        && (Empties(hash, rules, key, b, p) ==> !PassedOver(hash, b, Find(hash, b, p.data.name)))
        && (!Loaded(c) ==> NoUpdateStored(c))
  {
    var c := Put(hash, rules, key, b, p).buckets;
    PutShape(hash, rules, key, b, p);
    forall i | 0 <= i < |c|
      ensures Rebuilds(rules, key, c[i]) <==> forall k | 0 <= k < |c[i]| :: c[i][k].data.prefix != PREFIX_UPDATE
    {
      MergeKeepsKeysDistinct(rules, key, b[i], p);
      assert Uniform(rules, c[i]);
      DistinctRebuilds(rules, key, c[i]);
    }
  }

  /** Squashing and keeping all, it is: no package equals its first match when the merge resizes. */
  lemma HarmlessBySquash(hash: string -> nat, rules: Rules, key: PrimaryKey, b: Table, p: Package)
    requires rules.squash && rules.keepAll && Kept(rules, p)
    requires Intact(hash, rules, b) && forall i | 0 <= i < |b| :: AllKept(rules, b[i])
    ensures var c := Put(hash, rules, key, b, p).buckets;
      Harmless(hash, rules, key, b, p) <==> (!Loaded(c) ==> forall i | 0 <= i < |c| :: NoneSquashed(key, c[i]))
  {
    var c := Put(hash, rules, key, b, p).buckets;
    if Empties(hash, rules, key, b, p) {
      KeptMergeNeverEmpties(rules, key, ListFor(hash, b, p.data.name), p);
    }
    forall i | 0 <= i < |c| ensures Rebuilds(rules, key, c[i]) <==> NoneSquashed(key, c[i]) {
      MergeKeepsKept(rules, key, b[i], p);
      SquashKeepRebuilds(rules, key, c[i]);
    }
  }

  predicate HarmlessRun(hash: string -> nat, rules: Rules, key: PrimaryKey, b: Table, ps: seq<Package>)
    requires |b| > 0
    decreases |ps|
  {
    if ps == [] then true
    else
      match SetMerge(hash, rules, key, b, ps[0])
      case Exited => false
      case Running(_, c) => Harmless(hash, rules, key, b, ps[0]) && HarmlessRun(hash, rules, key, c, ps[1..])
  }

  /** After the first n merges the set is running, and holds what the flat list holds. */
  ghost predicate TracksAfter(hash: string -> nat, rules: Rules, key: PrimaryKey, b: Table, flat: seq<Package>, ps: seq<Package>, n: nat)
    requires |b| > 0 && n <= |ps|
  {
    var r := SetRun(hash, rules, key, b, ps[..n]);
    r.Some? && TracksExactly(hash, r.value, Run(rules, key, flat, ps[..n]))
  }

  lemma TracksAfterStep(hash: string -> nat, rules: Rules, key: PrimaryKey, b: Table, flat: seq<Package>, ps: seq<Package>, n: nat)
    requires |b| > 0 && n < |ps|
    ensures var r := SetMerge(hash, rules, key, b, ps[0]);
      TracksAfter(hash, rules, key, b, flat, ps, n + 1) <==>
        r.Running? && TracksAfter(hash, rules, key, r.buckets, Merge(rules, key, flat, ps[0]).pkgs, ps[1..], n)
  {
    assert ps[..n + 1][0] == ps[0] && ps[..n + 1][1..] == ps[1..][..n];
  }

  lemma {:induction false} RunTracksExactly(hash: string -> nat, rules: Rules, key: PrimaryKey, b: Table, flat: seq<Package>, ps: seq<Package>)
    requires Intact(hash, rules, b) && TracksExactly(hash, b, flat)
    ensures (forall n | 0 <= n <= |ps| :: TracksAfter(hash, rules, key, b, flat, ps, n)) <==> HarmlessRun(hash, rules, key, b, ps)
    decreases |ps|
  {
    assert TracksAfter(hash, rules, key, b, flat, ps, 0) by {
      assert ps[..0] == [];
    }
    if ps != [] {
      var r, after, rest := SetMerge(hash, rules, key, b, ps[0]), Merge(rules, key, flat, ps[0]).pkgs, ps[1..];
      SetMergeTracksExactly(hash, rules, key, b, flat, ps[0]);
      if Harmless(hash, rules, key, b, ps[0]) {
        RunTracksExactly(hash, rules, key, r.buckets, after, rest);
        forall n | 0 < n <= |ps|
          ensures TracksAfter(hash, rules, key, b, flat, ps, n) <==> TracksAfter(hash, rules, key, r.buckets, after, rest, n - 1)
        {
          TracksAfterStep(hash, rules, key, b, flat, ps, n - 1);
        }
        forall n | 0 <= n <= |rest|
          ensures TracksAfter(hash, rules, key, r.buckets, after, rest, n) <==> TracksAfter(hash, rules, key, b, flat, ps, n + 1)
        {
          TracksAfterStep(hash, rules, key, b, flat, ps, n);
        }
      } else {
        TracksAfterStep(hash, rules, key, b, flat, ps, 0);
        assert rest[..0] == [];
        assert !TracksAfter(hash, rules, key, b, flat, ps, 1);
      }
    }
  }

  /**
   Under any rules, a new set holds after every merge of a run what one flat list
   holds exactly when each merge of the run is harmless.
   */
  lemma SetRefinesListExactly(hash: string -> nat, rules: Rules, key: PrimaryKey, ps: seq<Package>)
    ensures var b := EmptyTable(DEFAULT_SIZE);
      (forall n | 0 <= n <= |ps| :: TracksAfter(hash, rules, key, b, [], ps, n)) <==> HarmlessRun(hash, rules, key, b, ps)
  {
    var b := EmptyTable(DEFAULT_SIZE);
    EmptyTableRoomy(hash, rules, DEFAULT_SIZE, {});
    forall name: string ensures ListFor(hash, b, name) == [] {
      NotStoredIsEmpty(hash, b, name);
    }
    RunTracksExactly(hash, rules, key, b, [], ps);
  }
}

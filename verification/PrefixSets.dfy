/**
 How a package set and one flat list come apart: runs that lose or duplicate a
 package, what a resize forgets, and exactly when it ends the program.
 */
module PrefixSets {
  import opened PackageOrder
  import opened Merging
  import opened MergeRuns
  import opened Remerging
  import opened Probing
  import opened Buckets
  import opened SetRuns

  // ---------------------------------------------------------------------
  // Runs that lose a package, and that store a name twice
  // ---------------------------------------------------------------------

  /** Two packages with prefixes whose names share a home slot, and the removal of the first one. */
  predicate Colliding(hash: string -> nat, key: PrimaryKey, p: Package, q: Package, minus: Package) {
    && IsValid(p) && IsValid(q) && p.data.prefix == PREFIX_ADD == q.data.prefix
    && p.data.name != q.data.name && hash(p.data.name) % DEFAULT_SIZE == hash(q.data.name) % DEFAULT_SIZE
    && minus != p && Matches(key, p, minus) && minus.data.prefix == PREFIX_REMOVE
  }

  lemma TwoPuts(hash: string -> nat, key: PrimaryKey, p: Package, q: Package, minus: Package, h: nat, b1: Table, b2: Table)
    requires Colliding(hash, key, p, q, minus) && h == hash(p.data.name) % DEFAULT_SIZE
    requires b1 == EmptyTable(DEFAULT_SIZE)[h := [p]] && b2 == b1[SlotAt(h, 1, DEFAULT_SIZE) := [q]]
    ensures SetMerge(hash, PREFIX_ONLY, key, EmptyTable(DEFAULT_SIZE), p) == Running(Added, b1)
    ensures SetMerge(hash, PREFIX_ONLY, key, b1, q) == Running(Added, b2)
    ensures Entries(b1) == 1 && Entries(b2) == 2
  {
    var e, g := EmptyTable(DEFAULT_SIZE), SlotAt(h, 1, DEFAULT_SIZE);
    EmptyTableRoomy(hash, PREFIX_ONLY, DEFAULT_SIZE, {});
    EntriesAfter(e, h, [p]);
    EntriesAfter(b1, g, [q]);
    assert Find(hash, b1, q.data.name) == g by {
      ProbeFromReaches(Keys(b1), h, q.data.name, 0, g);
    }
    assert Merge(PREFIX_ONLY, key, [], p) == Merged(Added, [p]);
    assert Merge(PREFIX_ONLY, key, [], q) == Merged(Added, [q]);
    assert Find(hash, e, p.data.name) == h;
  }

  /** The removal frees the home slot, so the search for the second name stops there. */
  lemma ThenRemoval(hash: string -> nat, key: PrimaryKey, p: Package, q: Package, minus: Package, h: nat, b2: Table, b3: Table)
    requires Colliding(hash, key, p, q, minus) && h == hash(p.data.name) % DEFAULT_SIZE
    requires b2 == EmptyTable(DEFAULT_SIZE)[h := [p]][SlotAt(h, 1, DEFAULT_SIZE) := [q]] && b3 == b2[h := []]
    ensures SetMerge(hash, PREFIX_ONLY, key, b2, minus) == Running(Removed, b3)
    ensures Find(hash, b3, q.data.name) == h
  {
    assert Find(hash, b2, minus.data.name) == h;
    assert FirstMatch(key, [p], minus) == 0;
    assert Merge(PREFIX_ONLY, key, [p], minus) == Merged(Removed, []);
  }

  lemma RunOfThree(hash: string -> nat, key: PrimaryKey, p: Package, q: Package, minus: Package, rest: seq<Package>)
    requires Colliding(hash, key, p, q, minus)
    ensures var h := hash(p.data.name) % DEFAULT_SIZE;
      var b3 := EmptyTable(DEFAULT_SIZE)[h := [p]][SlotAt(h, 1, DEFAULT_SIZE) := [q]][h := []];
      && SetRun(hash, PREFIX_ONLY, key, EmptyTable(DEFAULT_SIZE), [p, q, minus] + rest) == SetRun(hash, PREFIX_ONLY, key, b3, rest)
      && Find(hash, b3, q.data.name) == h
  {
    var e, h := EmptyTable(DEFAULT_SIZE), hash(p.data.name) % DEFAULT_SIZE;
    var b1 := e[h := [p]];
    var b2 := b1[SlotAt(h, 1, DEFAULT_SIZE) := [q]];
    var b3 := b2[h := []];
    TwoPuts(hash, key, p, q, minus, h, b1, b2);
    ThenRemoval(hash, key, p, q, minus, h, b2, b3);
    SetRunOfThree(hash, key, e, b1, b2, b3, p, q, minus, rest);
  }

  lemma SetRunOfThree(hash: string -> nat, key: PrimaryKey, e: Table, b1: Table, b2: Table, b3: Table,
                      p: Package, q: Package, minus: Package, rest: seq<Package>)
    requires |e| > 0 && |b1| > 0 && |b2| > 0
    requires SetMerge(hash, PREFIX_ONLY, key, e, p) == Running(Added, b1)
    requires SetMerge(hash, PREFIX_ONLY, key, b1, q) == Running(Added, b2)
    requires SetMerge(hash, PREFIX_ONLY, key, b2, minus) == Running(Removed, b3)
    ensures |b3| > 0
    ensures SetRun(hash, PREFIX_ONLY, key, e, [p, q, minus] + rest) == SetRun(hash, PREFIX_ONLY, key, b3, rest)
  {
    SetRunCons(hash, PREFIX_ONLY, key, b2, b3, Removed, minus, rest);
    SetRunOfTwo(hash, key, e, b1, b2, p, q, [minus] + rest);
    assert [p, q, minus] + rest == [p, q] + ([minus] + rest);
  }

  lemma SetRunOfTwo(hash: string -> nat, key: PrimaryKey, e: Table, b1: Table, b2: Table, p: Package, q: Package, rest: seq<Package>)
    requires |e| > 0 && |b1| > 0
    requires SetMerge(hash, PREFIX_ONLY, key, e, p) == Running(Added, b1)
    requires SetMerge(hash, PREFIX_ONLY, key, b1, q) == Running(Added, b2)
    ensures |b2| > 0
    ensures SetRun(hash, PREFIX_ONLY, key, e, [p, q] + rest) == SetRun(hash, PREFIX_ONLY, key, b2, rest)
  {
    SetRunCons(hash, PREFIX_ONLY, key, b1, b2, Added, q, rest);
    SetRunCons(hash, PREFIX_ONLY, key, e, b1, Added, p, [q] + rest);
    assert [p, q] + rest == [p] + ([q] + rest);
  }

  /**
   Two names with one home slot: removing the first one by prefix from a new set
   hides the second one, which one flat list would still hold.
   */
  lemma RemovalHidesOtherName(hash: string -> nat, key: PrimaryKey, p: Package, q: Package, minus: Package)
    requires Colliding(hash, key, p, q, minus)
    ensures var r := SetRun(hash, PREFIX_ONLY, key, EmptyTable(DEFAULT_SIZE), [p, q, minus]);
      && r.Some?
      && ListFor(hash, r.value, q.data.name) == []
      && Run(PREFIX_ONLY, key, [], [p, q, minus]) == [q]
  {
    RunOfThree(hash, key, p, q, minus, []);
    assert [p, q, minus] + [] == [p, q, minus];
    FlatRunOfThree(key, p, q, minus);
  }

  /**
   Pinning the hidden package then gives its name a second bucket, in front of the
   first one, and the next resize would end the program.
   */
  lemma HiddenNameStoredTwice(hash: string -> nat, key: PrimaryKey, p: Package, q: Package, minus: Package, pin: Package)
    requires Colliding(hash, key, p, q, minus) && hash(p.data.name) % DEFAULT_SIZE + 1 < DEFAULT_SIZE
    requires pin != q && Matches(key, q, pin) && Matches(key, pin, q) && pin.data.prefix == PREFIX_PIN
    ensures var r := SetRun(hash, PREFIX_ONLY, key, EmptyTable(DEFAULT_SIZE), [p, q, minus, pin]);
      && r.Some?
      && FromSlot(r.value, 0, q.data.name) == [pin, q]
      && MergeAll(PREFIX_ONLY, key, [], [pin, q]).change == Failed
      && Run(PREFIX_ONLY, key, [], [p, q, minus, pin]) == [pin]
  {
    var h, name := hash(p.data.name) % DEFAULT_SIZE, q.data.name;
    var b3 := EmptyTable(DEFAULT_SIZE)[h := [p]][h + 1 := [q]][h := []];
    var b4 := b3[h := [pin]];
    assert SetRun(hash, PREFIX_ONLY, key, EmptyTable(DEFAULT_SIZE), [p, q, minus, pin]) == Some(b4) by {
      RunOfThree(hash, key, p, q, minus, [pin]);
      assert [p, q, minus, pin] == [p, q, minus] + [pin] && [pin] == [pin] + [];
      PinIsStored(hash, key, q, pin, h, b3);
      SetRunCons(hash, PREFIX_ONLY, key, b3, b4, Added, pin, []);
    }
    assert FromSlot(b4, 0, name) == [pin, q] by {
      FromSlotSkips(b4, 0, h, name);
      FromSlotNone(b4, h + 2, name);
      assert FromSlot(b4, h + 1, name) == [q] + [];
      assert [pin] + [q] == [pin, q];
    }
    assert Clash(key, [pin, q][0], [pin, q][1]);
    RemergeFailsExactly(PREFIX_ONLY, key, [pin, q]);
    FlatRunOfThree(key, p, q, minus);
    FlatPin(key, q, pin);
    assert [p, q, minus, pin] == [p, q, minus] + [pin];
    RunSplits(PREFIX_ONLY, key, [], [p, q, minus], [pin]);
  }

  lemma PinIsStored(hash: string -> nat, key: PrimaryKey, q: Package, pin: Package, h: nat, b: Table)
    requires |b| == DEFAULT_SIZE && h + 1 < |b| && b == EmptyTable(DEFAULT_SIZE)[h + 1 := [q]]
    requires IsValid(pin) && pin.data.prefix == PREFIX_PIN && Find(hash, b, pin.data.name) == h
    ensures SetMerge(hash, PREFIX_ONLY, key, b, pin) == Running(Added, b[h := [pin]])
  {
    EmptyTableRoomy(hash, PREFIX_ONLY, DEFAULT_SIZE, {});
    EntriesAfter(EmptyTable(DEFAULT_SIZE), h + 1, [q]);
    EntriesAfter(b, h, [pin]);
    assert Merge(PREFIX_ONLY, key, [], pin) == Merged(Added, [pin]);
  }

  lemma FlatPin(key: PrimaryKey, q: Package, pin: Package)
    requires IsValid(q) && pin != q && Matches(key, q, pin) && pin.data.prefix == PREFIX_PIN && q.data.prefix == PREFIX_ADD
    ensures Run(PREFIX_ONLY, key, [q], [pin]) == [pin]
  {
    assert FirstMatch(key, [q], pin) == 0 && Without([q], 0) == [];
    RunCons(PREFIX_ONLY, key, [q], pin, []);
    assert [pin] + [] == [pin];
  }

  lemma {:induction false} FromSlotSkips(b: Table, i: nat, j: nat, name: string)
    requires i <= j <= |b| && forall k | i <= k < j :: SlotKey(b[k]) != Full(name)
    ensures FromSlot(b, i, name) == FromSlot(b, j, name)
    decreases j - i
  {
    if i < j {
      FromSlotSkips(b, i + 1, j, name);
    }
  }

  lemma EntriesAfter(b: Table, i: nat, l: seq<Package>)
    requires i < |b| && b[i] == [] && l != []
    ensures Entries(b[i := l]) == Entries(b) + 1
  {
    assert Keys(b[i := l]) == Keys(b)[i := SlotKey(l)];
    FullCountUpdate(Keys(b), i, SlotKey(l));
  }

  lemma SetRunCons(hash: string -> nat, rules: Rules, key: PrimaryKey, b: Table, c: Table, change: Change, p: Package, ps: seq<Package>)
    requires |b| > 0 && SetMerge(hash, rules, key, b, p) == Running(change, c)
    ensures |c| > 0 && SetRun(hash, rules, key, b, [p] + ps) == SetRun(hash, rules, key, c, ps)
  {
    assert ([p] + ps)[1..] == ps;
  }

  lemma RunCons(rules: Rules, key: PrimaryKey, s: seq<Package>, p: Package, ps: seq<Package>)
    ensures Run(rules, key, s, [p] + ps) == Run(rules, key, Merge(rules, key, s, p).pkgs, ps)
  {
    assert ([p] + ps)[1..] == ps;
  }

  predicate Leads(rules: Rules, key: PrimaryKey, s: seq<Package>, p: Package, t: seq<Package>) {
    var m := Merge(rules, key, s, p);
    IsValid(p) && m.change != Failed && m.pkgs == t
  }

  lemma LeadsOn(rules: Rules, key: PrimaryKey, s: seq<Package>, ps: seq<Package>, t: seq<Package>)
    requires ps != [] && Leads(rules, key, s, ps[0], t)
    ensures MergeAll(rules, key, s, ps).pkgs == MergeAll(rules, key, t, ps[1..]).pkgs
  {
    MergeAllStep(rules, key, s, ps);
  }

  lemma ThreeLeads(rules: Rules, key: PrimaryKey, s: seq<Package>, ps: seq<Package>, t1: seq<Package>, t2: seq<Package>, t3: seq<Package>)
    requires |ps| == 3
    requires Leads(rules, key, s, ps[0], t1) && Leads(rules, key, t1, ps[1], t2) && Leads(rules, key, t2, ps[2], t3)
    ensures MergeAll(rules, key, s, ps).pkgs == t3
  {
    LeadsOn(rules, key, s, ps, t1);
    LeadsOn(rules, key, t1, ps[1..], t2);
    LeadsOn(rules, key, t2, ps[2..], t3);
    assert ps[1..][1..] == ps[2..] && ps[2..][1..] == [];
  }

  lemma FlatMerges(key: PrimaryKey, p: Package, q: Package, minus: Package)
    requires IsValid(p) && IsValid(q) && p.data.prefix == q.data.prefix == PREFIX_ADD
    requires p.data.name != q.data.name
    requires minus != p && Matches(key, p, minus) && minus.data.prefix == PREFIX_REMOVE
    ensures Merge(PREFIX_ONLY, key, [], p).pkgs == [p]
    ensures Merge(PREFIX_ONLY, key, [p], q).pkgs == [p, q]
    ensures Merge(PREFIX_ONLY, key, [p, q], minus).pkgs == [q]
  {
    assert FirstMatch(key, [p, q], minus) == 0;
    assert Without([p, q], 0) == [q];
  }

  lemma FlatRunOfThree(key: PrimaryKey, p: Package, q: Package, minus: Package)
    requires IsValid(p) && IsValid(q) && p.data.prefix == q.data.prefix == PREFIX_ADD
    requires p.data.name != q.data.name
    requires minus != p && Matches(key, p, minus) && minus.data.prefix == PREFIX_REMOVE
    ensures Run(PREFIX_ONLY, key, [], [p, q, minus]) == [q]
  {
    FlatMerges(key, p, q, minus);
    assert [p, q, minus] == [p] + ([q] + ([minus] + []));
    RunCons(PREFIX_ONLY, key, [], p, [q] + ([minus] + []));
    RunCons(PREFIX_ONLY, key, [p], q, [minus] + []);
    RunCons(PREFIX_ONLY, key, [p, q], minus, []);
  }

  // ---------------------------------------------------------------------
  // Resizing with the prefix rule on
  // ---------------------------------------------------------------------

  /** The packages that are not updates of an entry that must exist already. */
  function WithoutUpdates(s: seq<Package>): seq<Package> {
    if s == [] then []
    else if s[0].data.prefix == PREFIX_UPDATE then WithoutUpdates(s[1..])
    else [s[0]] + WithoutUpdates(s[1..])
  }

  /** Where nothing has its key, an update is dropped and any other entry appended. */
  lemma FreshMerge(rules: Rules, key: PrimaryKey, t: seq<Package>, p: Package)
    requires rules.usePrefix && IsValid(p) && p.data.prefix != PREFIX_REMOVE
    requires forall x | x in t :: !Matches(key, x, p)
    ensures var m := Merge(rules, key, t, p);
      m.change != Failed && m.pkgs == if p.data.prefix == PREFIX_UPDATE then t else t + [p]
  {
    assert FirstMatch(key, t, p) == |t|;
  }

  /** No package of t has the key of one of s. */
  predicate Apart(key: PrimaryKey, t: seq<Package>, s: seq<Package>) {
    forall x, z | x in t && z in s :: !Matches(key, x, z)
  }

  lemma ApartNext(key: PrimaryKey, t: seq<Package>, s: seq<Package>)
    requires s != [] && DistinctKeys(key, s) && Apart(key, t, s)
    ensures Apart(key, t, s[1..]) && Apart(key, t + [s[0]], s[1..]) && DistinctKeys(key, s[1..])
  {
    var rest := s[1..];
    forall x, z | x in t + [s[0]] && z in rest ensures !Matches(key, x, z) {
      var j :| 0 <= j < |rest| && rest[j] == z;
      assert s[j + 1] == z;
    }
  }

  lemma {:induction false} RemergeDropsUpdates(rules: Rules, key: PrimaryKey, t: seq<Package>, s: seq<Package>)
    requires rules.usePrefix && Uniform(rules, s) && DistinctKeys(key, s) && Apart(key, t, s)
    ensures MergeAll(rules, key, t, s).change != Failed
    ensures MergeAll(rules, key, t, s).pkgs == t + WithoutUpdates(s)
    decreases |s|
  {
    if s == [] {
      assert t + [] == t;
    } else {
      var p, rest := s[0], s[1..];
      var next := if p.data.prefix == PREFIX_UPDATE then t else t + [p];
      var all, later := MergeAll(rules, key, t, s), MergeAll(rules, key, next, rest);
      assert all.pkgs == later.pkgs && (all.change == Failed <==> later.change == Failed) by {
        assert p in s;
        FreshMerge(rules, key, t, p);
        MergeAllStep(rules, key, t, s);
      }
      assert later.change != Failed && later.pkgs == next + WithoutUpdates(rest) by {
        ApartNext(key, t, s);
        RemergeDropsUpdates(rules, key, next, rest);
      }
      assert t + WithoutUpdates(s) == next + WithoutUpdates(rest);
    }
  }

  /**
   With the prefix rule on, a resize restores the list of a name exactly when no
   entry has the prefix of an update; such entries are forgotten.
   */
  lemma ResizeForgetsUpdatesExactly(rules: Rules, key: PrimaryKey, s: seq<Package>)
    requires rules.usePrefix && Uniform(rules, s) && DistinctKeys(key, s)
    ensures var m := MergeAll(rules, key, [], s);
      && m.change != Failed
      && m.pkgs == WithoutUpdates(s)
      && (m.pkgs == s <==> forall j | 0 <= j < |s| :: s[j].data.prefix != PREFIX_UPDATE)
  {
    RemergeDropsUpdates(rules, key, [], s);
    assert [] + WithoutUpdates(s) == WithoutUpdates(s);
    RemergeIsExact(rules, key, s);
    DistinctRebuilds(rules, key, s);
  }

  // ---------------------------------------------------------------------
  // Resizes that end the program
  // ---------------------------------------------------------------------

  /** y is rejected while the pinned x is the entry for its key. */
  predicate Clash(key: PrimaryKey, x: Package, y: Package) {
    && x.data.prefix == PREFIX_PIN && x != y && Matches(key, x, y)
    && (y.data.prefix in {PREFIX_ADD, PREFIX_PIN} || (y.data.prefix == PREFIX_MIN && CompareVersions(y.data, x.data) > 0))
  }

  predicate ClashesWith(key: PrimaryKey, s: seq<Package>, y: Package) {
    exists x | x in s :: Clash(key, x, y)
  }

  /** A package of ps clashes with one of s, or with an earlier one of ps. */
  predicate SomeClash(key: PrimaryKey, s: seq<Package>, ps: seq<Package>)
    decreases |ps|
  {
    ps != [] && (ClashesWith(key, s, ps[0]) || SomeClash(key, s + [ps[0]], ps[1..]))
  }

  /** Valid packages that all have a prefix, but not that of a removal. */
  predicate Prefixed(ps: seq<Package>) {
    forall k | 0 <= k < |ps| :: IsValid(ps[k]) && ps[k].data.prefix !in {PREFIX_NONE, PREFIX_REMOVE}
  }

  predicate SamePins(s: seq<Package>, t: seq<Package>) {
    && (forall x | x in s :: x.data.prefix == PREFIX_PIN ==> x in t)
    && (forall x | x in t :: x.data.prefix == PREFIX_PIN ==> x in s)
  }

  /** One such merge is refused exactly on a clash; otherwise a pin is added to the list as to what was merged. */
  lemma PinnedStep(rules: Rules, key: PrimaryKey, s: seq<Package>, seen: seq<Package>, p: Package)
    requires rules.usePrefix && DistinctKeys(key, s) && SamePins(s, seen) && Prefixed([p])
    ensures var m := Merge(rules, key, s, p);
      && (m.change == Failed <==> ClashesWith(key, seen, p))
      && (m.change != Failed ==> DistinctKeys(key, m.pkgs) && SamePins(m.pkgs, seen + [p]))
  {
    var m := Merge(rules, key, s, p);
    assert [p][0] == p;
    MergeKeepsKeysDistinct(rules, key, s, p);
    var i := FirstMatch(key, s, p);
    if i < |s| {
      NoSecondMatch(key, s, p);
      assert forall x | x in s && Matches(key, x, p) :: x == s[i];
    }
    assert m.change == Failed <==> ClashesWith(key, s, p);
    forall x | x in s && x.data.prefix == PREFIX_PIN ensures x in m.pkgs {
      PinnedLostExactly(rules, key, s, p, x);
    }
  }

  lemma {:induction false} PinnedClashFrom(rules: Rules, key: PrimaryKey, s: seq<Package>, seen: seq<Package>, ps: seq<Package>)
    requires rules.usePrefix && DistinctKeys(key, s) && SamePins(s, seen) && Prefixed(ps)
    ensures MergeAll(rules, key, s, ps).change == Failed <==> SomeClash(key, seen, ps)
    decreases |ps|
  {
    if ps != [] {
      var m := Merge(rules, key, s, ps[0]);
      assert Prefixed([ps[0]]) && Prefixed(ps[1..]);
      MergeAllStep(rules, key, s, ps);
      PinnedStep(rules, key, s, seen, ps[0]);
      if m.change != Failed {
        PinnedClashFrom(rules, key, m.pkgs, seen + [ps[0]], ps[1..]);
      }
    }
  }

  lemma {:induction false} SomeClashIs(key: PrimaryKey, s: seq<Package>, ps: seq<Package>)
    ensures SomeClash(key, s, ps) <==> exists k | 0 <= k < |ps| :: ClashesWith(key, s + ps[..k], ps[k])
    decreases |ps|
  {
    if ps != [] {
      var p, rest := ps[0], ps[1..];
      SomeClashIs(key, s + [p], rest);
      assert s + ps[..0] == s;
      assert forall k | 0 <= k < |rest| :: s + [p] + rest[..k] == s + ps[..k + 1] && rest[k] == ps[k + 1];
      if k :| 0 <= k < |rest| && ClashesWith(key, s + [p] + rest[..k], rest[k]) {
        assert ClashesWith(key, s + ps[..k + 1], ps[k + 1]);
      }
      if k :| 0 < k < |ps| && ClashesWith(key, s + ps[..k], ps[k]) {
        assert ClashesWith(key, s + [p] + rest[..k - 1], rest[k - 1]);
      }
    }
  }

  predicate HasClash(key: PrimaryKey, s: seq<Package>) {
    exists i, j | 0 <= i < j < |s| :: Clash(key, s[i], s[j])
  }

  /** Packages with prefixes are refused when they are merged again exactly when a pinned one comes before one that it rejects. */
  lemma RemergeFailsExactly(rules: Rules, key: PrimaryKey, s: seq<Package>)
    requires rules.usePrefix && Prefixed(s)
    ensures MergeAll(rules, key, [], s).change == Failed <==> HasClash(key, s)
  {
    PinnedClashFrom(rules, key, [], [], s);
    SomeClashIs(key, [], s);
    assert forall k | 0 <= k < |s| :: [] + s[..k] == s[..k];
    if k :| 0 <= k < |s| && ClashesWith(key, [] + s[..k], s[k]) {
      var x :| x in s[..k] && Clash(key, x, s[k]);
      var i :| 0 <= i < k && s[..k][i] == x;
      assert Clash(key, s[i], s[k]);
    }
    if i, j :| 0 <= i < j < |s| && Clash(key, s[i], s[j]) {
      assert s[i] in s[..j] && ClashesWith(key, [] + s[..j], s[j]);
    }
  }

  /** Where each bucket has one package of each key, only a name with two buckets can be refused. */
  lemma ExitNeedsTwoBuckets(hash: string -> nat, rules: Rules, key: PrimaryKey, b: Table)
    requires |b| > 0 && AllUniform(rules, b) && !Loaded(b)
    requires forall i | 0 <= i < |b| :: DistinctKeys(key, b[i])
    ensures Resize(hash, rules, key, b) == None ==> !Unique(Keys(b))
  {
    ResizeListFor(hash, rules, key, b, "");
    if Unique(Keys(b)) {
      forall name: string ensures MergeAll(rules, key, [], FromSlot(b, 0, name)).change != Failed {
        if i :| 0 <= i < |b| && SlotKey(b[i]) == Full(name) {
          FromSlotFinds(b, 0, i, name);
          DistinctRemerges(rules, key, b[i]);
        } else {
          FromSlotNone(b, 0, name);
        }
      }
    }
  }

  lemma DistinctRemerges(rules: Rules, key: PrimaryKey, s: seq<Package>)
    requires Uniform(rules, s) && DistinctKeys(key, s)
    ensures MergeAll(rules, key, [], s).change != Failed
  {
    if rules.usePrefix {
      RemergeDropsUpdates(rules, key, [], s);
    } else {
      DistinctRebuilds(rules, key, s);
      RemergeIsExact(rules, key, s);
    }
  }

  ghost predicate SomeNameClashes(key: PrimaryKey, b: Table) {
    exists name: string :: HasClash(key, FromSlot(b, 0, name))
  }

  /** So where all packages have prefixes, a merge ends the program exactly when a pin of some name stands before a package that it rejects. */
  lemma SetMergeExitsByPins(hash: string -> nat, rules: Rules, key: PrimaryKey, b: Table, p: Package)
    requires |b| > 0 && AllUniform(rules, b) && Loaded(b) && rules.usePrefix
    requires forall i | 0 <= i < |b| :: Prefixed(b[i])
    requires p.data.prefix != PREFIX_NONE
    ensures var c := Put(hash, rules, key, b, p).buckets;
      SetMerge(hash, rules, key, b, p) == Exited <==> !Loaded(c) && SomeNameClashes(key, c)
  {
    SetMergeExitsExactly(hash, rules, key, b, p);
    PutShape(hash, rules, key, b, p);
    var c := Put(hash, rules, key, b, p).buckets;
    forall i | 0 <= i < |c| ensures Prefixed(c[i]) {
      MergePrefixed(rules, key, b[i], p);
    }
    ClashesAreRefused(rules, key, c);
  }

  lemma ClashesAreRefused(rules: Rules, key: PrimaryKey, b: Table)
    requires rules.usePrefix && forall i | 0 <= i < |b| :: Prefixed(b[i])
    ensures SomeRemergeFails(rules, key, b) <==> SomeNameClashes(key, b)
  {
    if name: string :| MergeAll(rules, key, [], FromSlot(b, 0, name)).change == Failed {
      FromSlotPrefixed(b, 0, name);
      RemergeFailsExactly(rules, key, FromSlot(b, 0, name));
    }
    if name: string :| HasClash(key, FromSlot(b, 0, name)) {
      FromSlotPrefixed(b, 0, name);
      RemergeFailsExactly(rules, key, FromSlot(b, 0, name));
    }
  }

  lemma MergePrefixed(rules: Rules, key: PrimaryKey, s: seq<Package>, p: Package)
    requires rules.usePrefix && Prefixed(s) && p.data.prefix != PREFIX_NONE
    ensures Prefixed(Merge(rules, key, s, p).pkgs)
  {
    var t := Merge(rules, key, s, p).pkgs;
    forall x | x in t ensures IsValid(x) && x.data.prefix !in {PREFIX_NONE, PREFIX_REMOVE} {
      if x in s {
        var j :| 0 <= j < |s| && s[j] == x;
      }
    }
  }

  lemma {:induction false} FromSlotPrefixed(b: Table, i: nat, name: string)
    requires i <= |b| && forall j | 0 <= j < |b| :: Prefixed(b[j])
    ensures Prefixed(FromSlot(b, i, name))
    decreases |b| - i
  {
    if i < |b| {
      FromSlotPrefixed(b, i + 1, name);
    }
  }

  lemma {:induction false} FromSlotSame(b: Table, c: Table, i: nat, name: string)
    requires |c| == |b| && i <= |b|
    requires forall j | i <= j < |b| :: b[j] == c[j] || (SlotKey(b[j]) != Full(name) && SlotKey(c[j]) != Full(name))
    ensures FromSlot(c, i, name) == FromSlot(b, i, name)
    decreases |b| - i
  {
    if i < |b| {
      FromSlotSame(b, c, i + 1, name);
    }
  }

  /**
   Once the packages of a name would be refused, merges of other names leave it so,
   and the first of them that starts a resize ends the program.
   */
  lemma RefusalAwaitsResize(hash: string -> nat, rules: Rules, key: PrimaryKey, b: Table, p: Package, name: string)
    requires |b| > 0 && AllUniform(rules, b) && Loaded(b) && p.data.name != name
    requires MergeAll(rules, key, [], FromSlot(b, 0, name)).change == Failed
    ensures var r, c := SetMerge(hash, rules, key, b, p), Put(hash, rules, key, b, p).buckets;
      && (r == Exited <==> !Loaded(c))
      && (r.Running? ==> MergeAll(rules, key, [], FromSlot(r.buckets, 0, name)).change == Failed)
  {
    var c := Put(hash, rules, key, b, p).buckets;
    SetMergeExitsExactly(hash, rules, key, b, p);
    SetMergeKeepsLoad(hash, rules, key, b, p);
    var i := Find(hash, b, p.data.name);
    if IsValid(p) {
      MergeUniform(rules, key, b[i], p);
      FromSlotSame(b, c, 0, name);
    }
  }

  /**
   Squashing and keeping all, a list that merging produced can come back from a
   resize without one of two equal packages.
   */
  lemma ResizeDropsSquashedDuplicate(rules: Rules, key: PrimaryKey, x: Package, p: Package, q: Package, y: Package)
    requires rules.squash && rules.keepAll && !rules.usePrefix
    requires IsValid(x) && x != p && x != q && x != y && p != q && p != y && q != y
    requires Matches(key, x, p) && Matches(key, x, q) && Matches(key, x, y)
    requires Matches(key, p, q) && Matches(key, p, y) && Matches(key, q, y)
    requires Equals(x.data, y.data) && Equals(p.data, q.data)
    requires !Equals(x.data, p.data) && !Equals(x.data, q.data) && !Equals(q.data, y.data)
    ensures MergeAll(rules, key, [], [x, p, q, y]).pkgs == [p, q, y]
    ensures MergeAll(rules, key, [], [p, q, y]).pkgs == [q, y]
  {
    StepsBeforeResize(rules, key, x, p, q, y);
    StepsAfterResize(rules, key, p, q, y);
  }

  /** Four such packages: all of one name, version and context, the middle two with another flag. */
  lemma ResizeDropsSameFlags(rules: Rules, key: PrimaryKey, x: Package, p: Package, q: Package, y: Package, flag: char)
    requires rules.squash && rules.keepAll && !rules.usePrefix
    requires IsValid(x) && x != p && x != q && x != y && p != q && p != y && q != y
    requires y.data == x.data && p.data == q.data == x.data.(flags := x.data.flags + [flag])
    ensures MergeAll(rules, key, [], [x, p, q, y]).pkgs == [p, q, y]
    ensures MergeAll(rules, key, [], [p, q, y]).pkgs == [q, y]
  {
    EqualsIsEquivalence(x.data, x.data, x.data);
    EqualsIsEquivalence(p.data, p.data, p.data);
    assert StrCmp(x.data.flags, p.data.flags) != 0 && StrCmp(p.data.flags, x.data.flags) != 0 by {
      StrCmpZero(x.data.flags, p.data.flags);
      StrCmpZero(p.data.flags, x.data.flags);
      assert |p.data.flags| == |x.data.flags| + 1;
    }
    ResizeDropsSquashedDuplicate(rules, key, x, p, q, y);
  }

  /** What both rules together do to p where the first entry has its key. */
  lemma SquashOrAppend(rules: Rules, key: PrimaryKey, s: seq<Package>, p: Package)
    requires rules.squash && rules.keepAll && !rules.usePrefix
    requires IsValid(p) && s != [] && s[0] != p && Matches(key, s[0], p)
    ensures Merge(rules, key, s, p) == if Equals(s[0].data, p.data) then Merged(Replaced, s[1..] + [p]) else Merged(Added, s + [p])
  {
    assert FirstMatch(key, s, p) == 0;
    assert Without(s, 0) == s[1..];
  }

  lemma MergesBeforeResize(rules: Rules, key: PrimaryKey, x: Package, p: Package, q: Package, y: Package)
    requires rules.squash && rules.keepAll && !rules.usePrefix
    requires IsValid(x) && x != p && x != q && x != y
    requires Matches(key, x, p) && Matches(key, x, q) && Matches(key, x, y)
    requires !Equals(x.data, p.data) && !Equals(x.data, q.data) && Equals(x.data, y.data)
    ensures Leads(rules, key, [], x, [x]) && Leads(rules, key, [x], p, [x, p])
    ensures Leads(rules, key, [x, p], q, [x, p, q]) && Leads(rules, key, [x, p, q], y, [p, q, y])
  {
    SquashOrAppend(rules, key, [x], p);
    SquashOrAppend(rules, key, [x, p], q);
    SquashOrAppend(rules, key, [x, p, q], y);
    assert [x] + [p] == [x, p] && [x, p] + [q] == [x, p, q];
    assert [x, p, q][1..] + [y] == [p, q, y];
  }

  lemma StepsBeforeResize(rules: Rules, key: PrimaryKey, x: Package, p: Package, q: Package, y: Package)
    requires rules.squash && rules.keepAll && !rules.usePrefix
    requires IsValid(x) && x != p && x != q && x != y
    requires Matches(key, x, p) && Matches(key, x, q) && Matches(key, x, y)
    requires !Equals(x.data, p.data) && !Equals(x.data, q.data) && Equals(x.data, y.data)
    ensures MergeAll(rules, key, [], [x, p, q, y]).pkgs == [p, q, y]
  {
    MergesBeforeResize(rules, key, x, p, q, y);
    LeadsOn(rules, key, [], [x, p, q, y], [x]);
    assert [x, p, q, y][1..] == [p, q, y];
    ThreeLeads(rules, key, [x], [p, q, y], [x, p], [x, p, q], [p, q, y]);
  }

  lemma MergesAfterResize(rules: Rules, key: PrimaryKey, p: Package, q: Package, y: Package)
    requires rules.squash && rules.keepAll && !rules.usePrefix
    requires IsValid(p) && p != q && q != y
    requires Matches(key, p, q) && Matches(key, q, y)
    requires Equals(p.data, q.data) && !Equals(q.data, y.data)
    ensures Leads(rules, key, [], p, [p]) && Leads(rules, key, [p], q, [q]) && Leads(rules, key, [q], y, [q, y])
  {
    SquashOrAppend(rules, key, [p], q);
    SquashOrAppend(rules, key, [q], y);
    assert [p][1..] + [q] == [q] && [q] + [y] == [q, y];
  }

  lemma StepsAfterResize(rules: Rules, key: PrimaryKey, p: Package, q: Package, y: Package)
    requires rules.squash && rules.keepAll && !rules.usePrefix
    requires IsValid(p) && p != q && q != y
    requires Matches(key, p, q) && Matches(key, q, y)
    requires Equals(p.data, q.data) && !Equals(q.data, y.data)
    ensures MergeAll(rules, key, [], [p, q, y]).pkgs == [q, y]
  {
    MergesAfterResize(rules, key, p, q, y);
    ThreeLeads(rules, key, [], [p, q, y], [p], [q], [q, y]);
  }
}

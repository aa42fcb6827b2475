/**
 Resizing a package set and whole runs of merges into it, compared with merging
 the same packages into one flat list.
 */
module SetRuns {
  import opened Merging
  import opened MergeLaws
  import opened Remerging
  import opened Probing
  import opened Buckets

  const DEFAULT_SIZE := 113

  function EmptyTable(n: nat): (b: Table)
    ensures |b| == n && forall i | 0 <= i < n :: b[i] == []
  {
    seq(n, i => [])
  }

  /** Merging a list of packages where no resize is due. */
  function PutAll(hash: string -> nat, rules: Rules, key: PrimaryKey, b: Table, ps: seq<Package>): (r: SetMerged)
    requires |b| > 0
    ensures |r.buckets| == |b|
    decreases |ps|
  {
    if ps == [] then SetMerged(Unchanged, b)
    else if !IsValid(ps[0]) then PutAll(hash, rules, key, b, ps[1..])
    else
      var first := Put(hash, rules, key, b, ps[0]);
      if first.change == Failed then SetMerged(Failed, first.buckets)
      else
        var rest := PutAll(hash, rules, key, first.buckets, ps[1..]);
        if rest.change == Unchanged && first.change != Unchanged then SetMerged(Modified, rest.buckets) else rest
  }

  /** Merge the lists from slot i of an old table into b; None if one of them fails. */
  function Rehash(hash: string -> nat, rules: Rules, key: PrimaryKey, previous: Table, i: nat, b: Table): (r: Option<Table>)
    requires |b| > 0 && i <= |previous|
    ensures r.Some? ==> |r.value| == |b|
    decreases |previous| - i
  {
    if i == |previous| then Some(b)
    else
      var r := PutAll(hash, rules, key, b, previous[i]);
      if r.change == Failed then None else Rehash(hash, rules, key, previous, i + 1, r.buckets)
  }

  /** The load a table may have between merges. */
  predicate Loaded(b: Table) {
    10 * Entries(b) < 7 * |b|
  }

  function Resize(hash: string -> nat, rules: Rules, key: PrimaryKey, b: Table): (r: Option<Table>)
    requires |b| > 0
    ensures r.Some? ==> |r.value| > 0
  {
    var want := if Loaded(b) then |b| else 2 * Entries(b) + 1;
    if want <= |b| then Some(b) else Rehash(hash, rules, key, b, 0, EmptyTable(want))
  }

  /** The set after a merge, or the end of the program when a resize failed. */
  datatype SetState = Running(change: Change, buckets: Table) | Exited

  function SetMerge(hash: string -> nat, rules: Rules, key: PrimaryKey, b: Table, p: Package): (r: SetState)
    requires |b| > 0
    ensures r.Running? ==> |r.buckets| > 0
  {
    var i := Find(hash, b, p.data.name);
    var r := Put(hash, rules, key, b, p);
    if i < |b| && b[i] == [] && r.change != Failed && r.change != Unchanged then
      match Resize(hash, rules, key, r.buckets)
      case None => Exited
      case Some(c) => Running(r.change, c)
    else Running(r.change, r.buckets)
  }

  /** Merging a list into a set (lcfgpkgset_merge_list), where sofar is the change before ps. */
  function SetMergeRest(hash: string -> nat, rules: Rules, key: PrimaryKey, sofar: Change, b: Table, ps: seq<Package>): (r: SetState)
    requires |b| > 0
    decreases |ps|
  {
    if ps == [] then Running(sofar, b)
    else if !IsValid(ps[0]) then SetMergeRest(hash, rules, key, sofar, b, ps[1..])
    else
      match SetMerge(hash, rules, key, b, ps[0])
      case Exited => Exited
      case Running(rc, c) =>
        if rc == Failed then Running(Failed, c)
        else SetMergeRest(hash, rules, key, Combine(sofar, rc), c, ps[1..])
  }

  /** Into an empty table a package goes at the slot that is its hash modulo the size. */
  lemma FirstGoesHome(hash: string -> nat, rules: Rules, key: PrimaryKey, n: nat, p: Package)
    requires n > 0 && IsValid(p) && EntersFresh(rules, p)
    ensures Put(hash, rules, key, EmptyTable(n), p) == SetMerged(Added, EmptyTable(n)[hash(p.data.name) % n := [p]])
  {
    var b, i := EmptyTable(n), hash(p.data.name) % n;
    FreshMergeExactly(rules, key, [], p);
    assert Keys(b)[i] == Free && SlotAt(i, 0, n) == i;
    ProbeFromStep(Keys(b), i, p.data.name, 0, i);
    assert Find(hash, b, p.data.name) == i;
    assert [] + [p] == [p];
  }

  // ---------------------------------------------------------------------
  // Rehashing
  // ---------------------------------------------------------------------

  /** A sound table whose keys are among ks, with more slots than those. */
  ghost predicate Roomy(hash: string -> nat, rules: Rules, b: Table, ks: set<string>) {
    |b| > 0 && Sound(hash, Keys(b)) && AllUniform(rules, b) && KeySet(Keys(b)) <= ks && |ks| < |b|
  }

  lemma RoomyHasSpace(hash: string -> nat, rules: Rules, b: Table, ks: set<string>)
    requires Roomy(hash, rules, b, ks)
    ensures Entries(b) <= |ks| < |b|
  {
    FullCountIsKeyCount(Keys(b));
    SubsetSize(KeySet(Keys(b)), ks);
  }

  /** A package that may have been stored under these rules. */
  predicate Storable(rules: Rules, p: Package) {
    IsValid(p) && !(rules.usePrefix && p.data.prefix == PREFIX_REMOVE)
  }

  lemma PutKeepsRoomy(hash: string -> nat, rules: Rules, key: PrimaryKey, b: Table, ks: set<string>, p: Package)
    requires Roomy(hash, rules, b, ks) && Storable(rules, p) && p.data.name in ks
    ensures Roomy(hash, rules, Put(hash, rules, key, b, p).buckets, ks)
    ensures ListFor(hash, b, p.data.name) == [] || Merge(rules, key, ListFor(hash, b, p.data.name), p).pkgs != []
  {
    if ListFor(hash, b, p.data.name) != [] {
      MergeKeepsNonEmpty(rules, key, ListFor(hash, b, p.data.name), p);
    }
    PutShape(hash, rules, key, b, p);
    PutKeepsSound(hash, rules, key, b, p);
  }

  predicate AllStorable(rules: Rules, ps: seq<Package>, name: string) {
    forall j | 0 <= j < |ps| :: Storable(rules, ps[j]) && ps[j].data.name == name
  }

  lemma PutStep(hash: string -> nat, rules: Rules, key: PrimaryKey, b: Table, ks: set<string>, p: Package, name: string)
    requires Roomy(hash, rules, b, ks) && Storable(rules, p) && p.data.name in ks
    ensures var r, m := Put(hash, rules, key, b, p), Merge(rules, key, ListFor(hash, b, p.data.name), p);
      && Roomy(hash, rules, r.buckets, ks)
      && r.change == m.change
      && ListFor(hash, r.buckets, name) == if name == p.data.name then m.pkgs else ListFor(hash, b, name)
  {
    RoomyHasSpace(hash, rules, b, ks);
    PutKeepsRoomy(hash, rules, key, b, ks, p);
    PutListFor(hash, rules, key, b, p, name);
  }

  /** Merging a list of one name into a roomy table merges it into the list of that name. */
  lemma {:induction false} PutAllListFor(hash: string -> nat, rules: Rules, key: PrimaryKey, b: Table, ks: set<string>,
                                         ps: seq<Package>, changed: string, name: string)
    requires Roomy(hash, rules, b, ks) && changed in ks && AllStorable(rules, ps, changed)
    ensures var r, m := PutAll(hash, rules, key, b, ps), MergeAll(rules, key, ListFor(hash, b, changed), ps);
      && Roomy(hash, rules, r.buckets, ks)
      && r.change == m.change
      && ListFor(hash, r.buckets, name) == if name == changed then m.pkgs else ListFor(hash, b, name)
    decreases |ps|
  {
    if ps != [] {
      var first := Put(hash, rules, key, b, ps[0]);
      PutStep(hash, rules, key, b, ks, ps[0], changed);
      PutStep(hash, rules, key, b, ks, ps[0], name);
      if first.change != Failed {
        PutAllListFor(hash, rules, key, first.buckets, ks, ps[1..], changed, name);
      }
    }
  }

  lemma UniformIsStorable(rules: Rules, l: seq<Package>)
    requires Uniform(rules, l) && l != []
    ensures AllStorable(rules, l, l[0].data.name)
  {
  }

  lemma KeyIsStored(b: Table, i: nat)
    requires i < |b| && b[i] != []
    ensures b[i][0].data.name in KeySet(Keys(b))
  {
    assert Keys(b)[i].Full?;
  }

  /** A table with twice the room needs no resize, so a merge there only puts the package in place. */
  lemma RoomyMergeIsPut(hash: string -> nat, rules: Rules, key: PrimaryKey, b: Table, ks: set<string>, p: Package)
    requires Roomy(hash, rules, b, ks) && 2 * |ks| < |b|
    requires Storable(rules, p) && p.data.name in ks
    ensures Loaded(b)
    ensures var r := Put(hash, rules, key, b, p);
      && SetMerge(hash, rules, key, b, p) == Running(r.change, r.buckets)
      && Roomy(hash, rules, r.buckets, ks) && Loaded(r.buckets)
  {
    PutKeepsRoomy(hash, rules, key, b, ks, p);
    RoomyHasSpace(hash, rules, b, ks);
    RoomyHasSpace(hash, rules, Put(hash, rules, key, b, p).buckets, ks);
  }

  lemma {:induction false} RoomyMergeRest(hash: string -> nat, rules: Rules, key: PrimaryKey, sofar: Change, b: Table,
                                          ks: set<string>, ps: seq<Package>, name: string)
    requires Roomy(hash, rules, b, ks) && 2 * |ks| < |b|
    requires AllStorable(rules, ps, name) && name in ks && sofar in {Unchanged, Modified}
    ensures var r := PutAll(hash, rules, key, b, ps);
      && SetMergeRest(hash, rules, key, sofar, b, ps) == Running(if r.change == Unchanged then sofar else r.change, r.buckets)
      && Roomy(hash, rules, r.buckets, ks)
    decreases |ps|
  {
    if ps != [] {
      var r := Put(hash, rules, key, b, ps[0]);
      RoomyMergeIsPut(hash, rules, key, b, ks, ps[0]);
      if r.change != Failed {
        RoomyMergeRest(hash, rules, key, Combine(sofar, r.change), r.buckets, ks, ps[1..], name);
        PutAllChange(hash, rules, key, r.buckets, ps[1..]);
      }
    }
  }

  lemma {:induction false} PutAllChange(hash: string -> nat, rules: Rules, key: PrimaryKey, b: Table, ps: seq<Package>)
    requires |b| > 0
    ensures PutAll(hash, rules, key, b, ps).change in {Unchanged, Modified, Failed}
    decreases |ps|
  {
    if ps != [] {
      PutAllChange(hash, rules, key, b, ps[1..]);
      PutAllChange(hash, rules, key, Put(hash, rules, key, b, ps[0]).buckets, ps[1..]);
    }
  }

  /** A completed rehash yields a roomy table again, whatever the old table looked like. */
  lemma {:induction false} RehashKeepsRoomy(hash: string -> nat, rules: Rules, key: PrimaryKey, previous: Table, i: nat, b: Table)
    requires i <= |previous| && AllUniform(rules, previous)
    requires Roomy(hash, rules, b, KeySet(Keys(previous)))
    ensures var c := Rehash(hash, rules, key, previous, i, b);
      c.Some? ==> |c.value| == |b| && Roomy(hash, rules, c.value, KeySet(Keys(previous)))
    decreases |previous| - i
  {
    if i < |previous| {
      if previous[i] != [] {
        KeyIsStored(previous, i);
        UniformIsStorable(rules, previous[i]);
        PutAllListFor(hash, rules, key, b, KeySet(Keys(previous)), previous[i], previous[i][0].data.name, "");
      }
      RehashKeepsRoomy(hash, rules, key, previous, i + 1, PutAll(hash, rules, key, b, previous[i]).buckets);
    }
  }

  /** The packages of a name in the slots from i on, in the order of the slots. */
  function FromSlot(b: Table, i: nat, name: string): seq<Package>
    requires i <= |b|
    decreases |b| - i
  {
    if i == |b| then []
    else if SlotKey(b[i]) == Full(name) then b[i] + FromSlot(b, i + 1, name)
    else FromSlot(b, i + 1, name)
  }

  lemma {:induction false} FromSlotNone(b: Table, i: nat, name: string)
    requires i <= |b| && forall j | i <= j < |b| :: SlotKey(b[j]) != Full(name)
    ensures FromSlot(b, i, name) == []
    decreases |b| - i
  {
    if i < |b| {
      FromSlotNone(b, i + 1, name);
    }
  }

  lemma {:induction false} FromSlotFinds(b: Table, i: nat, j: nat, name: string)
    requires i <= j < |b| && Unique(Keys(b)) && SlotKey(b[j]) == Full(name)
    ensures FromSlot(b, i, name) == b[j]
    decreases j - i
  {
    if i < j {
      assert Keys(b)[i] != Keys(b)[j];
      FromSlotFinds(b, i + 1, j, name);
    } else {
      forall k | j < k < |b| ensures SlotKey(b[k]) != Full(name) {
        assert Keys(b)[j] != Keys(b)[k];
      }
      FromSlotNone(b, i + 1, name);
    }
  }

  lemma ListForIsFromSlot(hash: string -> nat, b: Table, name: string)
    requires |b| > 0 && Sound(hash, Keys(b))
    ensures ListFor(hash, b, name) == FromSlot(b, 0, name)
  {
    if j :| 0 <= j < |b| && SlotKey(b[j]) == Full(name) {
      ListForStored(hash, b, name, j);
      FromSlotFinds(b, 0, j, name);
    } else {
      NotStoredIsEmpty(hash, b, name);
      FromSlotNone(b, 0, name);
    }
  }

  /** One step of a rehash merges the list of one slot into the list of its name. */
  lemma RehashStep(hash: string -> nat, rules: Rules, key: PrimaryKey, previous: Table, i: nat, b: Table, name: string)
    requires i < |previous| && AllUniform(rules, previous)
    requires Roomy(hash, rules, b, KeySet(Keys(previous)))
    ensures var r, l := PutAll(hash, rules, key, b, previous[i]), previous[i];
      && Roomy(hash, rules, r.buckets, KeySet(Keys(previous)))
      && (l == [] ==> r.change != Failed)
      && (l != [] ==> r.change == MergeAll(rules, key, ListFor(hash, b, l[0].data.name), l).change)
      && ListFor(hash, r.buckets, name)
         == if SlotKey(l) == Full(name) then MergeAll(rules, key, ListFor(hash, b, name), l).pkgs else ListFor(hash, b, name)
  {
    var l := previous[i];
    if l != [] {
      KeyIsStored(previous, i);
      UniformIsStorable(rules, l);
      PutAllListFor(hash, rules, key, b, KeySet(Keys(previous)), l, l[0].data.name, name);
    }
  }

  /** What the slots from i on make of the list of a name in b. */
  function Refilled(hash: string -> nat, rules: Rules, key: PrimaryKey, previous: Table, i: nat, b: Table, name: string): Merged
    requires i <= |previous| && |b| > 0
  {
    MergeAll(rules, key, ListFor(hash, b, name), FromSlot(previous, i, name))
  }

  /** The packages of one name are refused when they are merged again. */
  ghost predicate SomeRefused(hash: string -> nat, rules: Rules, key: PrimaryKey, previous: Table, i: nat, b: Table)
    requires i <= |previous| && |b| > 0
  {
    exists name: string :: Refilled(hash, rules, key, previous, i, b, name).change == Failed
  }

  /** Merging the list of slot i before those that follow gives the same result. */
  lemma RefilledStep(hash: string -> nat, rules: Rules, key: PrimaryKey, previous: Table, i: nat, b: Table, name: string)
    requires i < |previous| && AllUniform(rules, previous)
    requires Roomy(hash, rules, b, KeySet(Keys(previous)))
    ensures var r, l := PutAll(hash, rules, key, b, previous[i]), previous[i];
      var all, rest := Refilled(hash, rules, key, previous, i, b, name), Refilled(hash, rules, key, previous, i + 1, r.buckets, name);
      && (SlotKey(l) == Full(name) && r.change == Failed ==> all.change == Failed)
      && (SlotKey(l) != Full(name) || r.change != Failed ==>
            all.pkgs == rest.pkgs && (all.change == Failed <==> rest.change == Failed))
  {
    RehashStep(hash, rules, key, previous, i, b, name);
    MergeAllConcat(rules, key, ListFor(hash, b, name), previous[i], FromSlot(previous, i + 1, name));
  }

  /** The same, where the list of slot i is not refused. */
  lemma RefusalStep(hash: string -> nat, rules: Rules, key: PrimaryKey, previous: Table, i: nat, b: Table, c: Table, name: string)
    requires i < |previous| && AllUniform(rules, previous)
    requires Roomy(hash, rules, b, KeySet(Keys(previous)))
    requires PutAll(hash, rules, key, b, previous[i]).change != Failed && c == PutAll(hash, rules, key, b, previous[i]).buckets
    ensures Roomy(hash, rules, c, KeySet(Keys(previous)))
    ensures var all, rest := Refilled(hash, rules, key, previous, i, b, name), Refilled(hash, rules, key, previous, i + 1, c, name);
      all.pkgs == rest.pkgs && (all.change == Failed <==> rest.change == Failed)
  {
    RehashStep(hash, rules, key, previous, i, b, name);
    RefilledStep(hash, rules, key, previous, i, b, name);
  }

  lemma SomeRefusedStep(hash: string -> nat, rules: Rules, key: PrimaryKey, previous: Table, i: nat, b: Table, c: Table)
    requires i < |previous| && AllUniform(rules, previous)
    requires Roomy(hash, rules, b, KeySet(Keys(previous)))
    requires PutAll(hash, rules, key, b, previous[i]).change != Failed && c == PutAll(hash, rules, key, b, previous[i]).buckets
    ensures SomeRefused(hash, rules, key, previous, i, b) <==> SomeRefused(hash, rules, key, previous, i + 1, c)
  {
    if SomeRefused(hash, rules, key, previous, i, b) {
      var n: string :| Refilled(hash, rules, key, previous, i, b, n).change == Failed;
      RefusalStep(hash, rules, key, previous, i, b, c, n);
    }
    if SomeRefused(hash, rules, key, previous, i + 1, c) {
      var n: string :| Refilled(hash, rules, key, previous, i + 1, c, n).change == Failed;
      RefusalStep(hash, rules, key, previous, i, b, c, n);
    }
  }

  /**
   A rehash merges the packages of each name again in the order of the old slots. It
   fails exactly when those of some name are refused, whatever the old table looks like.
   */
  lemma {:induction false} RehashListFor(hash: string -> nat, rules: Rules, key: PrimaryKey, previous: Table, i: nat, b: Table, name: string)
    requires i <= |previous| && AllUniform(rules, previous)
    requires Roomy(hash, rules, b, KeySet(Keys(previous)))
    ensures var c := Rehash(hash, rules, key, previous, i, b);
      && (c == None <==> SomeRefused(hash, rules, key, previous, i, b))
      && (c.Some? ==> ListFor(hash, c.value, name) == Refilled(hash, rules, key, previous, i, b, name).pkgs)
    decreases |previous| - i
  {
    if i < |previous| {
      var r := PutAll(hash, rules, key, b, previous[i]);
      if r.change == Failed {
        FirstRefused(hash, rules, key, previous, i, b);
      } else {
        RefusalStep(hash, rules, key, previous, i, b, r.buckets, name);
        SomeRefusedStep(hash, rules, key, previous, i, b, r.buckets);
        RehashListFor(hash, rules, key, previous, i + 1, r.buckets, name);
      }
    } else {
      NoneRefused(hash, rules, key, previous, b, name);
    }
  }

  lemma FirstRefused(hash: string -> nat, rules: Rules, key: PrimaryKey, previous: Table, i: nat, b: Table)
    requires i < |previous| && AllUniform(rules, previous)
    requires Roomy(hash, rules, b, KeySet(Keys(previous)))
    requires PutAll(hash, rules, key, b, previous[i]).change == Failed
    ensures SomeRefused(hash, rules, key, previous, i, b)
  {
    RehashStep(hash, rules, key, previous, i, b, "");
    RefilledStep(hash, rules, key, previous, i, b, previous[i][0].data.name);
  }

  lemma NoneRefused(hash: string -> nat, rules: Rules, key: PrimaryKey, previous: Table, b: Table, name: string)
    requires |b| > 0
    ensures !SomeRefused(hash, rules, key, previous, |previous|, b)
    ensures Refilled(hash, rules, key, previous, |previous|, b, name).pkgs == ListFor(hash, b, name)
  {
    assert forall n: string :: Refilled(hash, rules, key, previous, |previous|, b, n) == Merged(Unchanged, ListFor(hash, b, n));
  }

  lemma EmptyTableRoomy(hash: string -> nat, rules: Rules, n: nat, ks: set<string>)
    requires |ks| < n
    ensures Roomy(hash, rules, EmptyTable(n), ks)
    ensures Entries(EmptyTable(n)) == 0
  {
    NoneFullCount(Keys(EmptyTable(n)));
    assert KeySet(Keys(EmptyTable(n))) == {};
  }

  // ---------------------------------------------------------------------
  // The load of the table, under any rules
  // ---------------------------------------------------------------------

  /**
   A resize that completes leaves a sound table of twice the entries and one, of
   which less than half is used.
   */
  lemma ResizeHalvesLoad(hash: string -> nat, rules: Rules, key: PrimaryKey, b: Table)
    requires |b| > 0 && AllUniform(rules, b) && 10 * Entries(b) >= 7 * |b|
    ensures var c := Resize(hash, rules, key, b);
      c.Some? ==>
        && |c.value| == 2 * Entries(b) + 1 && Entries(c.value) <= Entries(b)
        && Sound(hash, Keys(c.value)) && AllUniform(rules, c.value)
  {
    var want := 2 * Entries(b) + 1;
    var ks := KeySet(Keys(b));
    KeySetAtMostFullCount(Keys(b));
    EmptyTableRoomy(hash, rules, want, ks);
    RehashKeepsRoomy(hash, rules, key, b, 0, EmptyTable(want));
    var c := Resize(hash, rules, key, b);
    if c.Some? {
      RoomyHasSpace(hash, rules, c.value, ks);
    }
  }

  /**
   Whatever the rules, a table with room stays one and every valid package finds
   a slot, so a set is never full.
   */
  lemma SetMergeKeepsLoad(hash: string -> nat, rules: Rules, key: PrimaryKey, b: Table, p: Package)
    requires |b| > 0 && AllUniform(rules, b) && Loaded(b)
    ensures Find(hash, b, p.data.name) < |b|
    ensures var r := SetMerge(hash, rules, key, b, p);
      r.Running? ==> AllUniform(rules, r.buckets) && 10 * Entries(r.buckets) < 7 * |r.buckets|
  {
    PutFindsSpace(hash, b, p.data.name);
    PutShape(hash, rules, key, b, p);
    var r := Put(hash, rules, key, b, p);
    if !Loaded(r.buckets) {
      ResizeHalvesLoad(hash, rules, key, r.buckets);
      PutOnlyFillsFree(hash, rules, key, b, p);
    }
  }

  /**
   The table is replaced by one of twice the entries and one slots as soon as a merge
   brings the load to seven tenths, and not before.
   */
  lemma ResizesExactly(hash: string -> nat, rules: Rules, key: PrimaryKey, b: Table, p: Package)
    requires |b| > 0 && AllUniform(rules, b) && 10 * Entries(b) < 7 * |b|
    ensures var r, c := SetMerge(hash, rules, key, b, p), Put(hash, rules, key, b, p).buckets;
      && (10 * Entries(c) < 7 * |c| ==> r.Running? && r.buckets == c)
      && (10 * Entries(c) >= 7 * |c| ==> r.Running? ==> |r.buckets| == 2 * Entries(c) + 1)
  {
    PutShape(hash, rules, key, b, p);
    var c := Put(hash, rules, key, b, p).buckets;
    if 10 * Entries(c) >= 7 * |c| {
      PutOnlyFillsFree(hash, rules, key, b, p);
      ResizeHalvesLoad(hash, rules, key, c);
    }
  }

  /** The number of entries grows only where a free slot was filled. */
  lemma PutOnlyFillsFree(hash: string -> nat, rules: Rules, key: PrimaryKey, b: Table, p: Package)
    requires |b| > 0 && Entries(b) < Entries(Put(hash, rules, key, b, p).buckets)
    ensures var i, r := Find(hash, b, p.data.name), Put(hash, rules, key, b, p);
      i < |b| && b[i] == [] && r.change != Failed && r.change != Unchanged
  {
    var i := Find(hash, b, p.data.name);
    var r := Put(hash, rules, key, b, p);
    if IsValid(p) && i < |b| {
      assert Keys(r.buckets) == Keys(b)[i := SlotKey(r.buckets[i])];
      FullCountUpdate(Keys(b), i, SlotKey(r.buckets[i]));
    }
  }

  // ---------------------------------------------------------------------
  // When a resize ends the program
  // ---------------------------------------------------------------------

  /** The packages of some name are refused when they are merged again, bucket after bucket. */
  ghost predicate SomeRemergeFails(rules: Rules, key: PrimaryKey, b: Table) {
    exists name: string :: MergeAll(rules, key, [], FromSlot(b, 0, name)).change == Failed
  }

  /** A resize that is due makes of each name what merging all its packages again makes. */
  lemma ResizeListFor(hash: string -> nat, rules: Rules, key: PrimaryKey, b: Table, name: string)
    requires |b| > 0 && AllUniform(rules, b) && !Loaded(b)
    ensures var c := Resize(hash, rules, key, b);
      && (c == None <==> SomeRemergeFails(rules, key, b))
      && (c.Some? ==> ListFor(hash, c.value, name) == MergeAll(rules, key, [], FromSlot(b, 0, name)).pkgs)
  {
    var empty := EmptyTable(2 * Entries(b) + 1);
    KeySetAtMostFullCount(Keys(b));
    EmptyTableRoomy(hash, rules, |empty|, KeySet(Keys(b)));
    RehashListFor(hash, rules, key, b, 0, empty, name);
    forall n: string ensures ListFor(hash, empty, n) == [] {
      NotStoredIsEmpty(hash, empty, n);
    }
    assert forall n: string {:trigger FromSlot(b, 0, n)} ::
        Refilled(hash, rules, key, b, 0, empty, n) == MergeAll(rules, key, [], FromSlot(b, 0, n));
    assert SomeRefused(hash, rules, key, b, 0, empty) <==> SomeRemergeFails(rules, key, b);
  }

  /**
   A merge ends the program exactly when it fills a slot, no room is left, and the
   packages of some name are refused when they are merged again in slot order.
   */
  lemma SetMergeExitsExactly(hash: string -> nat, rules: Rules, key: PrimaryKey, b: Table, p: Package)
    requires |b| > 0 && AllUniform(rules, b) && Loaded(b)
    ensures var c := Put(hash, rules, key, b, p).buckets;
      SetMerge(hash, rules, key, b, p) == Exited <==>
        && !Loaded(c)
        && SomeRemergeFails(rules, key, c)
  {
    var c := Put(hash, rules, key, b, p).buckets;
    PutShape(hash, rules, key, b, p);
    if !Loaded(c) {
      PutOnlyFillsFree(hash, rules, key, b, p);
      ResizeListFor(hash, rules, key, c, "");
    }
  }

  // ---------------------------------------------------------------------
  // The set and one flat list
  // ---------------------------------------------------------------------

  /** The state between merges of a set of kept packages. */
  ghost predicate Ready(hash: string -> nat, rules: Rules, key: PrimaryKey, b: Table) {
    && |b| > 0 && Loaded(b) && AllUniform(rules, b) && Sound(hash, Keys(b))
    && forall i | 0 <= i < |b| :: Remergeable(rules, key, b[i])
  }

  /** For every name the set has what the flat list has. */
  ghost predicate Tracks(hash: string -> nat, rules: Rules, b: Table, flat: seq<Package>)
    requires |b| > 0
  {
    forall name: string :: Alike(rules, ListFor(hash, b, name), ByName(flat, name))
  }

  lemma ListForRemergeable(hash: string -> nat, rules: Rules, key: PrimaryKey, b: Table, name: string)
    requires |b| > 0 && forall i | 0 <= i < |b| :: Remergeable(rules, key, b[i])
    ensures Remergeable(rules, key, ListFor(hash, b, name))
  {
  }

  lemma ResizeKeepsLists(hash: string -> nat, rules: Rules, key: PrimaryKey, b: Table, name: string)
    requires |b| > 0 && AllUniform(rules, b) && Sound(hash, Keys(b))
    requires forall i | 0 <= i < |b| :: Remergeable(rules, key, b[i])
    ensures var c := Resize(hash, rules, key, b);
      && c.Some?
      && Alike(rules, ListFor(hash, c.value, name), ListFor(hash, b, name))
      && (c.value == b || ListFor(hash, c.value, name) == MergeAll(rules, key, [], ListFor(hash, b, name)).pkgs)
  {
    if !Loaded(b) {
      ResizeListFor(hash, rules, key, b, name);
      forall n: string
        ensures FromSlot(b, 0, n) == ListFor(hash, b, n)
        ensures MergeAll(rules, key, [], FromSlot(b, 0, n)).change != Failed
        ensures Alike(rules, MergeAll(rules, key, [], FromSlot(b, 0, n)).pkgs, ListFor(hash, b, n))
      {
        ListForIsFromSlot(hash, b, n);
        ListForRemergeable(hash, rules, key, b, n);
        RemergeKeepsAlike(rules, key, ListFor(hash, b, n));
      }
    }
  }

  /** Every bucket of a sound table is what the set finds for some name. */
  lemma BucketIsListFor(hash: string -> nat, b: Table, i: nat)
    requires i < |b| && Sound(hash, Keys(b)) && b[i] != []
    ensures ListFor(hash, b, b[i][0].data.name) == b[i]
  {
    ListForStored(hash, b, b[i][0].data.name, i);
  }

  /** Buckets stay fit for a resize when each list is one that merging produced. */
  lemma ResizeKeepsReady(hash: string -> nat, rules: Rules, key: PrimaryKey, b: Table)
    requires |b| > 0 && AllUniform(rules, b) && Sound(hash, Keys(b))
    requires forall i | 0 <= i < |b| :: Remergeable(rules, key, b[i])
    ensures var c := Resize(hash, rules, key, b); c.Some? && Ready(hash, rules, key, c.value)
  {
    ResizeKeepsLists(hash, rules, key, b, "");
    if !Loaded(b) {
      ResizeHalvesLoad(hash, rules, key, b);
      var c := Resize(hash, rules, key, b).value;
      forall i | 0 <= i < |c| ensures Remergeable(rules, key, c[i]) {
        if c[i] != [] {
          var name := c[i][0].data.name;
          BucketIsListFor(hash, c, i);
          ResizeKeepsLists(hash, rules, key, b, name);
          var l := ListFor(hash, b, name);
          assert Remergeable(rules, key, l);
          RemergedIsRemergeable(rules, key, [], l);
        }
      }
    }
  }

  lemma {:induction false} RemergedIsRemergeable(rules: Rules, key: PrimaryKey, s: seq<Package>, ps: seq<Package>)
    requires AllKept(rules, ps) && Remergeable(rules, key, s)
    ensures Remergeable(rules, key, MergeAll(rules, key, s, ps).pkgs)
    decreases |ps|
  {
    if ps != [] {
      if IsValid(ps[0]) {
        MergeKeepsRemergeable(rules, key, s, ps[0]);
        MergeAllStep(rules, key, s, ps);
        RemergedIsRemergeable(rules, key, Merge(rules, key, s, ps[0]).pkgs, ps[1..]);
      } else {
        RemergedIsRemergeable(rules, key, s, ps[1..]);
      }
    }
  }

  lemma KeptMergeNeverEmpties(rules: Rules, key: PrimaryKey, s: seq<Package>, p: Package)
    requires Kept(rules, p) && s != []
    ensures Merge(rules, key, s, p).pkgs != []
  {
    MergeKeepsNonEmpty(rules, key, s, p);
  }

  lemma PutKeepsRemergeable(hash: string -> nat, rules: Rules, key: PrimaryKey, b: Table, p: Package)
    requires Kept(rules, p) && |b| > 0
    requires forall i | 0 <= i < |b| :: Remergeable(rules, key, b[i])
    ensures forall i | 0 <= i < |b| :: Remergeable(rules, key, Put(hash, rules, key, b, p).buckets[i])
  {
    var i := Find(hash, b, p.data.name);
    if i < |b| {
      MergeKeepsRemergeable(rules, key, b[i], p);
    }
  }

  lemma SetMergeKeepsReady(hash: string -> nat, rules: Rules, key: PrimaryKey, b: Table, p: Package)
    requires Kept(rules, p) && Ready(hash, rules, key, b)
    ensures var r := SetMerge(hash, rules, key, b, p); r.Running? && Ready(hash, rules, key, r.buckets)
  {
    var c := Put(hash, rules, key, b, p).buckets;
    PutShape(hash, rules, key, b, p);
    if ListFor(hash, b, p.data.name) != [] {
      KeptMergeNeverEmpties(rules, key, ListFor(hash, b, p.data.name), p);
    }
    PutKeepsSound(hash, rules, key, b, p);
    PutKeepsRemergeable(hash, rules, key, b, p);
    ResizeKeepsReady(hash, rules, key, c);
    if Entries(b) < Entries(c) {
      PutOnlyFillsFree(hash, rules, key, b, p);
    }
  }

  /** What a merge does to the list of each name, resize included. */
  lemma SetMergeListFor(hash: string -> nat, rules: Rules, key: PrimaryKey, b: Table, p: Package, name: string)
    requires Kept(rules, p) && Ready(hash, rules, key, b) && IsValid(p)
    ensures var r, m := SetMerge(hash, rules, key, b, p), Merge(rules, key, ListFor(hash, b, p.data.name), p);
      && r.Running? && r.change == m.change
      && Alike(rules, ListFor(hash, r.buckets, name), if name == p.data.name then m.pkgs else ListFor(hash, b, name))
  {
    SetMergeKeepsReady(hash, rules, key, b, p);
    if ListFor(hash, b, p.data.name) != [] {
      KeptMergeNeverEmpties(rules, key, ListFor(hash, b, p.data.name), p);
    }
    PutListFor(hash, rules, key, b, p, name);
    var c := Put(hash, rules, key, b, p).buckets;
    PutShape(hash, rules, key, b, p);
    PutKeepsSound(hash, rules, key, b, p);
    PutKeepsRemergeable(hash, rules, key, b, p);
    ResizeKeepsLists(hash, rules, key, c, name);
  }

  /**
   Where no package is removed, updated, or both kept and decided by its prefix, a
   set takes every merge as one flat list does, through all resizes: none fails,
   the verdict is that of the list, and for every name the set holds what the list
   holds, or the same packages up to equality when duplicates are both squashed and kept.
   */
  lemma SetMergeTracksList(hash: string -> nat, rules: Rules, key: PrimaryKey, b: Table, flat: seq<Package>, p: Package)
    requires Kept(rules, p) && Ready(hash, rules, key, b) && Tracks(hash, rules, b, flat)
    ensures var r, m := SetMerge(hash, rules, key, b, p), Merge(rules, key, flat, p);
      && r.Running? && Ready(hash, rules, key, r.buckets)
      && AlikeChange(rules, r.change, m.change)
      && Tracks(hash, rules, r.buckets, m.pkgs)
  {
    SetMergeKeepsReady(hash, rules, key, b, p);
    var r, m := SetMerge(hash, rules, key, b, p), Merge(rules, key, flat, p);
    var own := ByName(flat, p.data.name);
    assert Alike(rules, ListFor(hash, b, p.data.name), own);
    MergeKeepsAlike(rules, key, ListFor(hash, b, p.data.name), own, p);
    if IsValid(p) {
      MergeByName(rules, key, flat, p, "");
      SetMergeListFor(hash, rules, key, b, p, "");
      forall name: string ensures Alike(rules, ListFor(hash, r.buckets, name), ByName(m.pkgs, name)) {
        MergeByName(rules, key, flat, p, name);
        SetMergeListFor(hash, rules, key, b, p, name);
        assert Alike(rules, ListFor(hash, b, name), ByName(flat, name));
      }
    } else {
      assert r.buckets == b;
    }
  }

  /** A run of merges into a set, going on after those that are rejected. */
  function SetRun(hash: string -> nat, rules: Rules, key: PrimaryKey, b: Table, ps: seq<Package>): (r: Option<Table>)
    requires |b| > 0
    ensures r.Some? ==> |r.value| > 0
    decreases |ps|
  {
    if ps == [] then Some(b)
    else
      match SetMerge(hash, rules, key, b, ps[0])
      case Exited => None
      case Running(_, c) => SetRun(hash, rules, key, c, ps[1..])
  }

  lemma {:induction false} SetRunTracks(hash: string -> nat, rules: Rules, key: PrimaryKey, b: Table, flat: seq<Package>, ps: seq<Package>)
    requires AllKept(rules, ps) && Ready(hash, rules, key, b) && Tracks(hash, rules, b, flat)
    ensures var r := SetRun(hash, rules, key, b, ps);
      r.Some? && Ready(hash, rules, key, r.value) && Tracks(hash, rules, r.value, Run(rules, key, flat, ps))
    decreases |ps|
  {
    if ps != [] {
      SetMergeTracksList(hash, rules, key, b, flat, ps[0]);
      SetRunTracks(hash, rules, key, SetMerge(hash, rules, key, b, ps[0]).buckets,
                   Merge(rules, key, flat, ps[0]).pkgs, ps[1..]);
    }
  }

  lemma NewTableReady(hash: string -> nat, rules: Rules, key: PrimaryKey)
    ensures Ready(hash, rules, key, EmptyTable(DEFAULT_SIZE))
    ensures Tracks(hash, rules, EmptyTable(DEFAULT_SIZE), [])
  {
    EmptyTableRoomy(hash, rules, DEFAULT_SIZE, {});
    forall name: string ensures ListFor(hash, EmptyTable(DEFAULT_SIZE), name) == [] {
      NotStoredIsEmpty(hash, EmptyTable(DEFAULT_SIZE), name);
    }
  }

  /** The same over whole runs from a new set. */
  lemma SetRefinesList(hash: string -> nat, rules: Rules, key: PrimaryKey, ps: seq<Package>)
    requires AllKept(rules, ps)
    ensures var r := SetRun(hash, rules, key, EmptyTable(DEFAULT_SIZE), ps);
      r.Some? && Ready(hash, rules, key, r.value) && Tracks(hash, rules, r.value, Run(rules, key, [], ps))
  {
    NewTableReady(hash, rules, key);
    SetRunTracks(hash, rules, key, EmptyTable(DEFAULT_SIZE), [], ps);
  }

  /** After any run, the set reports for the next package what the flat list reports, and never exits. */
  lemma SetReportsListChange(hash: string -> nat, rules: Rules, key: PrimaryKey, ps: seq<Package>, p: Package)
    requires AllKept(rules, ps) && Kept(rules, p)
    ensures var r := SetRun(hash, rules, key, EmptyTable(DEFAULT_SIZE), ps);
      && r.Some? && |r.value| > 0
      && var next := SetMerge(hash, rules, key, r.value, p);
         next.Running? && AlikeChange(rules, next.change, Merge(rules, key, Run(rules, key, [], ps), p).change)
  {
    SetRefinesList(hash, rules, key, ps);
    var b := SetRun(hash, rules, key, EmptyTable(DEFAULT_SIZE), ps).value;
    SetMergeTracksList(hash, rules, key, b, Run(rules, key, [], ps), p);
  }

  // ---------------------------------------------------------------------
  // What merging a list into a set reports
  // ---------------------------------------------------------------------

  /** The changes that the merges report one by one, up to the first error or the end of the program. */
  function SetReports(hash: string -> nat, rules: Rules, key: PrimaryKey, b: Table, ps: seq<Package>): seq<Change>
    requires |b| > 0
    decreases |ps|
  {
    if ps == [] then []
    else if !IsValid(ps[0]) then SetReports(hash, rules, key, b, ps[1..])
    else
      match SetMerge(hash, rules, key, b, ps[0])
      case Exited => []
      case Running(rc, c) => [rc] + if rc == Failed then [] else SetReports(hash, rules, key, c, ps[1..])
  }

  lemma {:induction false} SetRestReports(hash: string -> nat, rules: Rules, key: PrimaryKey, sofar: Change, b: Table, ps: seq<Package>)
    requires |b| > 0 && sofar in {Unchanged, Modified}
    ensures var r := SetMergeRest(hash, rules, key, sofar, b, ps);
      r.Running? ==> Summarises(r.change, [sofar] + SetReports(hash, rules, key, b, ps))
    decreases |ps|
  {
    if ps == [] {
      ReportsCons(sofar, []);
    } else if IsValid(ps[0]) {
      var r := SetMerge(hash, rules, key, b, ps[0]);
      if r.Running? {
        var next := Combine(sofar, r.change);
        if r.change == Failed {
          ReportsCons(Failed, []);
          ReportsCons(sofar, [Failed] + []);
        } else {
          SetRestReports(hash, rules, key, next, r.buckets, ps[1..]);
          CombineSummary(sofar, r.change, SetReports(hash, rules, key, r.buckets, ps[1..]),
                         SetMergeRest(hash, rules, key, next, r.buckets, ps[1..]));
        }
      }
    } else {
      SetRestReports(hash, rules, key, sofar, b, ps[1..]);
    }
  }

  lemma CombineSummary(sofar: Change, rc: Change, reports: seq<Change>, r: SetState)
    requires sofar in {Unchanged, Modified} && rc != Failed
    requires r.Running? ==> Summarises(r.change, [Combine(sofar, rc)] + reports)
    ensures r.Running? ==> Summarises(r.change, [sofar] + ([rc] + reports))
  {
    ReportsCons(sofar, [rc] + reports);
    ReportsCons(rc, reports);
    ReportsCons(Combine(sofar, rc), reports);
  }

  /** Unless it ends the program, merging a list into a set reports no change exactly when each merge did, and a modification when none failed and some did not. */
  lemma SetMergeListReports(hash: string -> nat, rules: Rules, key: PrimaryKey, b: Table, ps: seq<Package>)
    requires |b| > 0
    ensures var r := SetMergeRest(hash, rules, key, Unchanged, b, ps);
      r.Running? ==> Summarises(r.change, SetReports(hash, rules, key, b, ps))
  {
    SetRestReports(hash, rules, key, Unchanged, b, ps);
    ReportsCons(Unchanged, SetReports(hash, rules, key, b, ps));
  }
}

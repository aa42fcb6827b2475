/**
 The package set of packages/set.c: an open-addressed array of package lists, one
 for each name, which resizes itself by merging all its lists again.
 */
module PackageSets {
  import opened PackageOrder
  import opened Merging
  import opened Probing
  import opened Buckets
  import opened SetRuns
  import opened PackageLists

  /** How often each package is stored in a table. */
  ghost function Total(b: Table): multiset<Package> {
    if b == [] then multiset{} else multiset(b[0]) + Total(b[1..])
  }

  function StoredIn(b: Table): set<Package> {
    set i, q | 0 <= i < |b| && q in b[i] :: q
  }

  /** Where the chains are whole, what is found for a name is just what is stored of it. */
  lemma FoundIsStored(hash: string -> nat, rules: Rules, b: Table, name: string)
    requires |b| > 0 && AllUniform(rules, b) && Sound(hash, Keys(b))
    ensures forall q: Package :: q in ListFor(hash, b, name) <==> q in StoredIn(b) && q.data.name == name
  {
    forall q: Package | q in StoredIn(b) && q.data.name == name ensures q in ListFor(hash, b, name) {
      var i :| 0 <= i < |b| && q in b[i];
      var k :| 0 <= k < |b[i]| && b[i][k] == q;
      ListForStored(hash, b, name, i);
    }
    var l := ListFor(hash, b, name);
    forall q | q in l ensures q in StoredIn(b) && q.data.name == name {
      var k :| 0 <= k < |l| && l[k] == q;
      assert b[Find(hash, b, name)] == l && SlotKey(l) == Full(name);
    }
  }

  lemma NoneNamed(l: seq<Package>, name: string, arch: string)
    ensures FirstNamed(l, name, arch) == |l| <==> forall q | q in l :: !Match(q.data, name, arch)
  {
  }

  lemma {:induction false} TotalUpdate(b: Table, i: nat, l: seq<Package>)
    requires i < |b|
    ensures Total(b[i := l]) + multiset(b[i]) == Total(b) + multiset(l)
  {
    if i == 0 {
      assert b[i := l][1..] == b[1..];
    } else {
      assert b[i := l][1..] == b[1..][i - 1 := l];
      TotalUpdate(b[1..], i - 1, l);
      var changed := Total(b[1..][i - 1 := l]);
      assert multiset(b[0]) + changed + multiset(b[i]) == multiset(b[0]) + (changed + multiset(b[i]));
    }
  }

  lemma TotalUpdateAt(b: Table, i: nat, l: seq<Package>, q: Package)
    requires i < |b|
    ensures Total(b[i := l])[q] + multiset(b[i])[q] == Total(b)[q] + multiset(l)[q]
  {
    TotalUpdate(b, i, l);
    assert (Total(b[i := l]) + multiset(b[i]))[q] == (Total(b) + multiset(l))[q];
  }

  lemma {:induction false} TotalSplit(b: Table, i: nat)
    requires i < |b|
    ensures Total(b[..i + 1]) == Total(b[..i]) + multiset(b[i])
  {
    if i == 0 {
      assert b[..1][1..] == [] && b[..0] == [];
    } else {
      assert b[..i + 1][1..] == b[1..][..i] && b[..i][1..] == b[1..][..i - 1];
      TotalSplit(b[1..], i - 1);
    }
  }

  lemma {:induction false} TotalPrefix(b: Table, i: nat)
    requires i <= |b|
    ensures Total(b[..i]) <= Total(b)
    decreases |b| - i
  {
    if i < |b| {
      TotalSplit(b, i);
      TotalPrefix(b, i + 1);
    } else {
      assert b[..i] == b;
    }
  }

  lemma TotalOfNext(b: Table, i: nat)
    requires i < |b|
    ensures Total(b[..i + 1]) == Total(b[..i]) + multiset(b[i]) <= Total(b)
  {
    TotalSplit(b, i);
    TotalPrefix(b, i + 1);
  }

  lemma ShareIsOwed(b: Table, i: nat, q: Package)
    requires i < |b| && q in b[i]
    ensures q in StoredIn(b) && Total(b)[q] >= Total(b[..i])[q] + multiset(b[i])[q]
  {
    TotalOfNext(b, i);
  }

  lemma TotalAtLeast(b: Table, i: nat)
    requires i < |b|
    ensures multiset(b[i]) <= Total(b)
  {
    TotalSplit(b, i);
    TotalPrefix(b, i + 1);
  }

  lemma {:induction false} TotalEmpty(b: Table)
    requires forall i | 0 <= i < |b| :: b[i] == []
    ensures Total(b) == multiset{}
  {
    if b != [] {
      TotalEmpty(b[1..]);
    }
  }

  lemma {:induction false} TotalNotStored(b: Table, q: Package)
    requires q !in StoredIn(b)
    ensures Total(b)[q] == 0
  {
    if b != [] {
      assert q !in b[0];
      forall i, x | 0 <= i < |b[1..]| && x in b[1..][i] ensures x in StoredIn(b) {
        assert x in b[i + 1];
      }
      TotalNotStored(b[1..], q);
    }
  }

  lemma StoredAfter(b: Table, i: nat, l: seq<Package>, p: Package)
    requires i < |b| && forall q | q in l :: q in b[i] || q == p
    ensures StoredIn(b[i := l]) <= StoredIn(b) + {p}
  {
    forall q | q in StoredIn(b[i := l]) ensures q in StoredIn(b) + {p} {
      var j :| 0 <= j < |b| && q in b[i := l][j];
      assert q in b[j] || q == p;
    }
  }

  lemma MergeMembers(rules: Rules, key: PrimaryKey, s: seq<Package>, p: Package)
    ensures forall q | q in Merge(rules, key, s, p).pkgs :: q in s || q == p
    ensures s == [] ==> var m := Merge(rules, key, s, p);
              m.pkgs == [] <==> m.change == Failed || m.change == Unchanged
  {
  }

  /** The set has come to b, and merging the rest of the packages decides the outcome. */
  ghost predicate OnCourse(hash: string -> nat, rules: Rules, key: PrimaryKey, outcome: SetState,
                           change: Change, b: Table, rest: seq<Package>)
    requires |b| > 0
  {
    outcome == if change == Failed then Running(Failed, b) else SetMergeRest(hash, rules, key, change, b, rest)
  }

  lemma OnCourseEnd(hash: string -> nat, rules: Rules, key: PrimaryKey, outcome: SetState,
                    change: Change, b: Table, rest: seq<Package>)
    requires |b| > 0 && OnCourse(hash, rules, key, outcome, change, b, rest)
    requires change == Failed || rest == []
    ensures outcome == Running(change, b)
  {
  }

  lemma OnCourseStep(hash: string -> nat, rules: Rules, key: PrimaryKey, outcome: SetState,
                     change: Change, b: Table, rest: seq<Package>)
    requires |b| > 0 && rest != [] && IsValid(rest[0]) && change != Failed
    requires OnCourse(hash, rules, key, outcome, change, b, rest)
    ensures var r := SetMerge(hash, rules, key, b, rest[0]);
      if r.Exited? then outcome == Exited
      else |r.buckets| > 0 && OnCourse(hash, rules, key, outcome, Combine(change, r.change), r.buckets, rest[1..])
  {
  }

  class PackageSet {
    const hash: string -> nat
    const rules: Rules
    const key: PrimaryKey
    var packages: array<PackageList?>
    var buckets: nat
    var entries: nat

    ghost var lists: Table
    ghost var regions: seq<set<object>>
    ghost var footprint: set<object>

    /** The list in a slot holds s, within its region; an empty slot stands for no packages. */
    ghost predicate SlotHolds(l: PackageList?, s: seq<Package>, region: set<object>)
      reads l, if l == null then {} else l.repr
    {
      if l == null then s == [] && region == {}
      else s != [] && l in region && l.repr <= region && l.Valid() && l.pkgs == s && l.rules == rules && l.key == key
    }

    static ghost function RegionOf(l: PackageList): (r: set<object>)
      reads l
      ensures l in r && l.repr <= r
    {
      var own: set<object> := {l};
      own + l.repr
    }

    constructor (hash: string -> nat, rules: Rules, key: PrimaryKey)
      ensures this.hash == hash && this.rules == rules && this.key == key
      ensures Valid() && lists == EmptyTable(113) && fresh(footprint)
    {
      this.hash, this.rules, this.key := hash, rules, key;
      packages := new PackageList?[DEFAULT_SIZE](i => null);
      buckets, entries := DEFAULT_SIZE, 0;
      lists, regions := EmptyTable(DEFAULT_SIZE), seq(DEFAULT_SIZE, i => {});
      new;
      footprint := {packages};
      EmptyTableRoomy(hash, rules, DEFAULT_SIZE, {});
    }

    ghost predicate Sized()
      reads this
    {
      && packages.Length == buckets == |lists| == |regions|
      && buckets > 0
      && entries == Entries(lists)
    }

    /** Slot i agrees with lists, within a region of its own. */
    ghost predicate SlotOk(i: int)
      requires Sized() && 0 <= i < buckets && regions[i] <= footprint
      reads this, packages, footprint
    {
      && (packages[i] != null ==> packages[i] in regions[i] && packages[i].repr <= regions[i])
      && SlotHolds(packages[i], lists[i], regions[i])
    }

    /** The table agrees with lists in every slot but one, and no two slots share an object. */
    ghost predicate ShapeBut(skip: int)
      reads this, packages, footprint
    {
      && Sized()
      && this !in footprint && packages in footprint
      && (forall i | 0 <= i < buckets :: regions[i] <= footprint && packages !in regions[i])
      && (forall i, j | 0 <= i < j < buckets :: regions[i] !! regions[j])
      && (forall i | 0 <= i < buckets && i != skip :: SlotOk(i))
    }

    ghost predicate Shape()
      reads this, packages, footprint
    {
      ShapeBut(-1)
    }

    /** References to a package beyond those of the list nodes that hold it in this set. */
    ghost function Surplus(q: Package): int
      reads this, q
    {
      q.refs - Total(lists)[q]
    }

    ghost predicate Held()
      reads this, StoredIn(lists)
    {
      forall q | q in StoredIn(lists) :: Surplus(q) >= 0
    }

    /** So no package stored in any list of the set has been destroyed. */
    lemma StoredIsAlive(slot: nat, i: nat)
      requires Held() && slot < |lists| && i < |lists[slot]|
      ensures lists[slot][i].refs > 0
    {
      var q := lists[slot][i];
      TotalAtLeast(lists, slot);
      assert multiset(lists[slot])[q] >= 1;
      assert q in lists[slot] && q in StoredIn(lists) && Surplus(q) >= 0;
    }

    /** The test of a search in one slot: no list, or a list of that name. */
    predicate StopsAt(i: nat, name: string)
      requires Shape() && i < buckets
      reads this, packages, footprint
      ensures StopsAt(i, name) <==> SlotKey(lists[i]) == Free || SlotKey(lists[i]) == Full(name)
    {
      assert SlotOk(i);
      packages[i] == null ||
      (packages[i].size != 0 &&
       var first := packages[i].head.data;
       assert first == lists[i][0];
       Match(first.data, name, WILDCARD))
    }

    /** One of the two loops of a search: the slots from lo up to hi, the first being the d0-th visited from h. */
    method Scan(name: string, lo: nat, hi: nat, ghost h: nat, ghost d0: nat) returns (done: bool, slot: nat)
      requires Shape() && h < buckets
      requires lo <= hi <= buckets && d0 + (hi - lo) <= buckets
      requires lo < hi ==> if h <= lo then d0 == lo - h else hi <= h && d0 == buckets - h + lo
      ensures var t := Keys(lists);
        if done then slot < buckets && slot == ProbeFrom(t, h, name, d0)
        else ProbeFrom(t, h, name, d0) == ProbeFrom(t, h, name, d0 + (hi - lo))
    {
      ghost var t := Keys(lists);
      ghost var d := d0;
      var i := lo;
      while i < hi
        invariant lo <= i <= hi && d == d0 + (i - lo)
        invariant ProbeFrom(t, h, name, d0) == ProbeFrom(t, h, name, d)
      {
        assert t[i] == SlotKey(lists[i]);
        ProbeFromStep(t, h, name, d, i);
        if StopsAt(i, name) {
          return true, i;
        }
        d := d + 1;
        i := i + 1;
      }
      return false, buckets;
    }

    /** Where the search for a name stops: its list, or the first free slot. */
    method FindSlot(name: string) returns (done: bool, slot: nat)
      requires Shape()
      ensures slot == Find(hash, lists, name)
      ensures done <==> slot < buckets
    {
      var h := hash(name) % buckets;
      done, slot := Scan(name, h, buckets, h, 0);
      if !done {
        done, slot := Scan(name, 0, h, h, buckets - h);
        if !done {
          slot := buckets;
        }
      }
    }

    lemma ListIsHeld(slot: nat)
      requires Shape() && Held() && slot < buckets && packages[slot] != null
      ensures packages[slot].Held()
    {
      var list := packages[slot];
      assert SlotOk(slot);
      TotalAtLeast(lists, slot);
      forall q | q in Members(list.pkgs) ensures list.Surplus(q) >= 0 {
        assert q in lists[slot] && q in StoredIn(lists) && Surplus(q) >= 0;
      }
    }

    /** The list of a slot, or a new one where there is none. */
    method ListAt(slot: nat) returns (list: PackageList)
      requires Shape() && Held() && slot < buckets
      ensures list.Valid() && list.Held() && list.rules == rules && list.key == key
      ensures list.pkgs == lists[slot]
      ensures if packages[slot] == null then fresh(list) else list == packages[slot]
      ensures fresh(RegionOf(list) - regions[slot])
    {
      assert SlotOk(slot);
      if packages[slot] == null {
        list := new PackageList(rules, key);
      } else {
        list := packages[slot];
        ListIsHeld(slot);
      }
    }

    /** Merge a package into the list of a slot, or into a new list where there is none. */
    method MergeInto(slot: nat, p: Package) returns (list: PackageList, change: Change)
      requires Shape() && Held() && slot < buckets && IsValid(p)
      modifies regions[slot], Touched(key, lists[slot], p)
      ensures ShapeBut(slot)
      ensures list.Valid() && list.rules == rules && list.key == key
      ensures Merged(change, list.pkgs) == Merge(rules, key, lists[slot], p)
      ensures if packages[slot] == null then fresh(list) else list == packages[slot]
      ensures fresh(RegionOf(list) - regions[slot])
      ensures forall q: Package | old(allocated(q)) ::
                q.refs - multiset(list.pkgs)[q] == old(q.refs) - multiset(lists[slot])[q]
    {
      list := ListAt(slot);
      change := list.MergePackage(p);
      forall q: Package | old(allocated(q))
        ensures q.refs - multiset(list.pkgs)[q] == old(q.refs) - multiset(lists[slot])[q]
      {
        assert list.Surplus(q) == old(q.refs) - multiset(lists[slot])[q];
      }
      forall i | 0 <= i < buckets && i != slot ensures SlotOk(i) {
        assert old(SlotOk(i)) && regions[i] !! regions[slot];
      }
    }

    /** Let a slot hold a list, or nothing. */
    method Store(slot: nat, l: PackageList?, count: nat, ghost s: seq<Package>, ghost region: set<object>)
      requires ShapeBut(slot) && slot < buckets && count == Entries(lists[slot := s])
      requires SlotHolds(l, s, region) && this !in region && packages !in region
      requires forall i | 0 <= i < buckets && i != slot :: regions[i] !! region
      modifies `entries, `lists, `regions, `footprint, packages
      ensures Shape() && lists == old(lists)[slot := s] && regions == old(regions)[slot := region]
      ensures footprint == old(footprint) + region
    {
      packages[slot] := l;
      entries := count;
      lists, regions := lists[slot := s], regions[slot := region];
      footprint := footprint + region;
      forall i | 0 <= i < buckets && i != slot ensures SlotOk(i) {
        assert old(SlotOk(i));
      }
      assert SlotOk(slot);
    }

    /** Record the list of a slot: enter a new list that got a package, drop a list that became empty. */
    method Place(slot: nat, list: PackageList, change: Change) returns (added: bool)
      requires ShapeBut(slot) && slot < buckets
      requires list.Valid() && list.rules == rules && list.key == key
      requires packages[slot] == null <==> lists[slot] == []
      requires packages[slot] != null ==> list == packages[slot]
      requires packages[slot] == null ==> (list.pkgs == [] <==> change == Failed || change == Unchanged)
      requires this !in RegionOf(list) && packages !in RegionOf(list)
      requires forall i | 0 <= i < buckets && i != slot :: regions[i] !! RegionOf(list)
      modifies `entries, `lists, `regions, `footprint, packages
      ensures Shape()
      ensures lists == old(lists)[slot := list.pkgs]
      ensures added <==> old(lists[slot]) == [] && list.pkgs != []
      ensures footprint <= old(footprint) + RegionOf(list)
    {
      FullCountUpdate(Keys(lists), slot, SlotKey(list.pkgs));
      assert Keys(lists[slot := list.pkgs]) == Keys(lists)[slot := SlotKey(list.pkgs)];
      added := false;
      ghost var region := RegionOf(list);
      if packages[slot] == null {
        if change != Failed && change != Unchanged {
          added := true;
          Store(slot, list, entries + 1, list.pkgs, region);
        } else {
          Store(slot, null, entries, [], {});
        }
      } else if list.size == 0 {
        Store(slot, null, entries - 1, [], {});
      } else {
        Store(slot, list, entries, list.pkgs, region);
      }
    }

    /** Merge a package into its slot and record the outcome. */
    method MergeSlot(slot: nat, p: Package) returns (change: Change, added: bool)
      requires Shape() && Held() && IsValid(p) && slot < buckets
      modifies `entries, `lists, `regions, `footprint, footprint, StoredIn(lists) + {p}
      ensures Shape() && fresh(footprint - old(footprint))
      ensures var m := Merge(rules, key, old(lists)[slot], p);
        change == m.change && lists == old(lists)[slot := m.pkgs]
      ensures added <==> old(lists[slot]) == [] && change != Failed && change != Unchanged
      ensures forall q: Package | old(allocated(q)) ::
                q.refs - multiset(lists[slot])[q] == old(q.refs) - multiset(old(lists)[slot])[q]
    {
      assert SlotOk(slot);
      MergeMembers(rules, key, lists[slot], p);
      assert Members(lists[slot]) <= StoredIn(lists);
      var list;
      list, change := MergeInto(slot, p);
      assert forall i | 0 <= i < buckets && i != slot :: regions[i] !! regions[slot];
      added := Place(slot, list, change);
    }

    /** Merge a package into its slot and record the outcome, before any resize. */
    method MergeAt(slot: nat, p: Package) returns (change: Change, added: bool)
      requires Shape() && Held() && IsValid(p)
      requires slot < buckets && slot == Find(hash, lists, p.data.name)
      modifies `entries, `lists, `regions, `footprint, footprint, StoredIn(lists) + {p}
      ensures Shape() && Held()
      ensures fresh(footprint - old(footprint))
      ensures SetMerged(change, lists) == Put(hash, rules, key, old(lists), p)
      ensures added <==> old(lists[slot]) == [] && change != Failed && change != Unchanged
      ensures StoredIn(lists) <= old(StoredIn(lists)) + {p}
      ensures forall q: Package | old(allocated(q)) :: Surplus(q) == old(Surplus(q))
    {
      ghost var b, l := lists, Merge(rules, key, lists[slot], p).pkgs;
      MergeMembers(rules, key, lists[slot], p);
      StoredAfter(b, slot, l, p);
      forall q | q in StoredIn(b) + {p} ensures Surplus(q) >= 0 {
        if q !in StoredIn(b) {
          TotalNotStored(b, q);
        }
      }
      change, added := MergeSlot(slot, p);
      forall q: Package | old(allocated(q)) ensures Surplus(q) == old(Surplus(q)) {
        TotalUpdateAt(b, slot, l, q);
      }
      forall q | q in StoredIn(lists) ensures Surplus(q) >= 0 {
        assert q in StoredIn(b) + {p} && Surplus(q) == old(Surplus(q));
      }
    }

    /** A state between merges: the table is in shape, its load is bounded, and all references are accounted for. */
    ghost predicate Valid()
      reads this, packages, footprint, StoredIn(lists)
    {
      Shape() && Held() && AllUniform(rules, lists) && Loaded(lists)
    }

    /** During a resize: room for all names ks that the old table had. */
    ghost predicate Refilling(ks: set<string>)
      reads this
    {
      Roomy(hash, rules, lists, ks) && 2 * |ks| < |lists|
    }

    /**
     Merge a package into the set. The outcome is that of SetMerge; every
     package keeps the references it has from elsewhere.
     */
    method MergePackage(p: Package, ghost refilling: bool, ghost ks: set<string>) returns (change: Change, exited: bool)
      requires Valid()
      requires refilling ==> Refilling(ks) && Storable(rules, p) && p.data.name in ks
      modifies this, footprint, StoredIn(lists) + {p}
      ensures (if exited then Exited else Running(change, lists)) == SetMerge(hash, rules, key, old(lists), p)
      ensures !exited ==> Valid() && StoredIn(lists) <= old(StoredIn(lists)) + {p}
      ensures !exited ==> fresh(footprint - old(footprint))
      ensures !exited ==> forall q: Package | old(allocated(q)) :: Surplus(q) == old(Surplus(q))
      decreases if refilling then 0 else 1, 3
    {
      if !IsValid(p) {
        return Failed, false;
      }
      SetMergeKeepsLoad(hash, rules, key, lists, p);
      PutShape(hash, rules, key, lists, p);
      if refilling {
        RoomyMergeIsPut(hash, rules, key, lists, ks, p);
      }
      var done, slot := FindSlot(p.data.name);
      if !done {
        return Failed, false;
      }
      change, exited := MergeFound(slot, p, refilling);
    }

    /** Merge a package at the slot where the search for its name stopped, and resize if a slot was filled. */
    method MergeFound(slot: nat, p: Package, ghost refilling: bool) returns (change: Change, exited: bool)
      requires Valid() && IsValid(p) && slot == Find(hash, lists, p.data.name) < buckets
      requires AllUniform(rules, Put(hash, rules, key, lists, p).buckets)
      requires refilling ==> Loaded(Put(hash, rules, key, lists, p).buckets)
      requires var r := SetMerge(hash, rules, key, lists, p); r.Running? ==> AllUniform(rules, r.buckets) && Loaded(r.buckets)
      modifies this, footprint, StoredIn(lists) + {p}
      ensures (if exited then Exited else Running(change, lists)) == SetMerge(hash, rules, key, old(lists), p)
      ensures !exited ==> Valid() && StoredIn(lists) <= old(StoredIn(lists)) + {p}
      ensures !exited ==> fresh(footprint - old(footprint))
      ensures !exited ==> forall q: Package | old(allocated(q)) :: Surplus(q) == old(Surplus(q))
      decreases if refilling then 0 else 1, 2
    {
      exited := false;
      var added;
      change, added := MergeAt(slot, p);
      if added {
        ghost var before := footprint;
        exited := ResizeTable(refilling);
        assert !exited ==> fresh(footprint - before);
      }
    }

    /** Merge a package of a list that shares nothing with the set; the list stays as it is. */
    method MergeFrom(list: PackageList, p: Package, sofar: Change, ghost rest: seq<Package>, ghost outcome: SetState,
                     ghost refilling: bool, ghost ks: set<string>, ghost all: set<Package>)
      returns (change: Change, exited: bool)
      requires Valid() && list.Valid() && p in list.pkgs
      requires list !in footprint && list.repr !! footprint
      requires rest != [] && rest[0] == p && sofar != Failed && OnCourse(hash, rules, key, outcome, sofar, lists, rest)
      requires refilling ==> Refilling(ks) && Storable(rules, p) && p.data.name in ks
      requires StoredIn(lists) + Members(list.pkgs) <= all
      modifies this, footprint, all
      ensures if exited then outcome == Exited else Valid() && OnCourse(hash, rules, key, outcome, change, lists, rest[1..])
      ensures !exited ==> StoredIn(lists) <= all
      ensures !exited ==> fresh(footprint - old(footprint))
      ensures !exited ==> forall q: Package | old(allocated(q)) :: Surplus(q) == old(Surplus(q))
      ensures refilling ==> !exited && Refilling(ks)
      ensures list.Valid() && list.pkgs == old(list.pkgs) && list.nodes == old(list.nodes) && list.repr == old(list.repr)
      ensures !exited ==> list !in footprint && list.repr !! footprint
      decreases if refilling then 0 else 1, 4
    {
      assert p in Members(list.pkgs) && IsValid(p);
      OnCourseStep(hash, rules, key, outcome, sofar, lists, rest);
      if refilling {
        RoomyMergeIsPut(hash, rules, key, lists, ks, p);
      }
      var rc;
      rc, exited := MergePackage(p, refilling, ks);
      change := Combine(sofar, rc);
    }

    /** Merge the packages of a list into the set, up to the first error. */
    method MergeList(list: PackageList, ghost refilling: bool, ghost ks: set<string>, ghost name: string)
      returns (change: Change, exited: bool)
      requires Valid() && list.Valid()
      requires list !in footprint && list.repr !! footprint
      requires refilling ==> Refilling(ks) && name in ks && AllStorable(rules, list.pkgs, name)
      modifies this, footprint, StoredIn(lists) + Members(list.pkgs)
      ensures (if exited then Exited else Running(change, lists))
           == SetMergeRest(hash, rules, key, Unchanged, old(lists), list.pkgs)
      ensures !exited ==> Valid() && StoredIn(lists) <= old(StoredIn(lists)) + Members(list.pkgs)
      ensures !exited ==> fresh(footprint - old(footprint))
      ensures !exited ==> forall q: Package | old(allocated(q)) :: Surplus(q) == old(Surplus(q))
      decreases if refilling then 0 else 1, 5
    {
      change, exited := Unchanged, false;
      ghost var ps := list.pkgs;
      ghost var all := StoredIn(lists) + Members(ps);
      ghost var outcome := SetMergeRest(hash, rules, key, Unchanged, lists, ps);
      ghost var i, rest := 0, ps;
      var node := list.head;
      while node != null && change != Failed
        invariant Valid() && StoredIn(lists) <= all
        invariant fresh(footprint - old(footprint))
        invariant list.Valid() && list.pkgs == ps && i <= |ps|
        invariant list !in footprint && list.repr !! footprint
        invariant node == NodeAt(list.nodes, i)
        invariant rest == ps[i..] && OnCourse(hash, rules, key, outcome, change, lists, rest)
        invariant forall q: Package | old(allocated(q)) :: Surplus(q) == old(Surplus(q))
        invariant refilling ==> Refilling(ks)
        decreases |list.nodes| - i
      {
        assert node.data == ps[i];
        ghost var before := footprint;
        change, exited := MergeFrom(list, node.data, change, rest, outcome, refilling, ks, all);
        if exited {
          return;
        }
        assert fresh(footprint - before);
        node, i, rest := node.next, i + 1, rest[1..];
      }
      OnCourseEnd(hash, rules, key, outcome, change, lists, rest);
    }

    /**
     Where the load has reached its limit, merge every list again into a table
     of twice the entries; a failure there ends the program.
     */
    method ResizeTable(ghost refilling: bool) returns (exited: bool)
      requires Shape() && Held() && AllUniform(rules, lists)
      requires refilling ==> Loaded(lists)
      modifies this, footprint, StoredIn(lists)
      ensures (if exited then None else Some(lists)) == Resize(hash, rules, key, old(lists))
      ensures !exited ==> Shape() && Held() && StoredIn(lists) <= old(StoredIn(lists))
      ensures !exited ==> fresh(footprint - old(footprint))
      ensures !exited ==> forall q: Package | old(allocated(q)) :: Surplus(q) == old(Surplus(q))
      ensures old(Loaded(lists)) ==> !exited && footprint == old(footprint)
      decreases if refilling then 0 else 1, 1
    {
      var want := if 10 * entries >= 7 * buckets then 2 * entries + 1 else buckets;
      if want <= buckets {
        return false;
      }
      exited := Rebuild(want);
    }

    /** Start again with an empty table. */
    method ResetTable(want: nat)
      requires want > 0
      modifies this
      ensures Shape() && lists == EmptyTable(want) && fresh(footprint)
    {
      packages := new PackageList?[want](i => null);
      buckets, entries := want, 0;
      lists, regions, footprint := EmptyTable(want), seq(want, i => {}), {packages};
      EmptyTableRoomy(hash, rules, want, {});
    }

    /** Merge one list of the old table into the new one and give it up. */
    method Refill(list: PackageList, ghost ks: set<string>, ghost name: string) returns (failed: bool)
      requires Valid() && Refilling(ks) && name in ks
      requires list.Valid() && list !in footprint && list.repr !! footprint && AllStorable(rules, list.pkgs, name)
      requires forall q | q in Members(list.pkgs) :: Surplus(q) >= multiset(list.pkgs)[q]
      modifies this, footprint, StoredIn(lists) + Members(list.pkgs), list, list.repr`next
      ensures var r := PutAll(hash, rules, key, old(lists), old(list.pkgs));
        && (failed <==> r.change == Failed)
        && (!failed ==> lists == r.buckets)
      ensures !failed ==> Valid() && Refilling(ks) && StoredIn(lists) <= old(StoredIn(lists)) + old(Members(list.pkgs))
      ensures !failed ==> fresh(footprint - old(footprint))
      ensures !failed ==> forall q: Package | old(allocated(q)) ::
                Surplus(q) == old(Surplus(q)) - old(multiset(list.pkgs))[q]
      decreases 0, 6
    {
      ghost var ps := list.pkgs;
      ghost var m := multiset(ps);
      RoomyMergeRest(hash, rules, key, Unchanged, lists, ks, ps, name);
      var change, exited := MergeList(list, true, ks, name);
      failed := change == Failed;
      if !failed {
        label merged:
        forall q | q in Members(ps) ensures Surplus(q) >= m[q] {
          assert Surplus(q) == old(Surplus(q));
        }
        GiveUp(list);
        forall q: Package | old(allocated(q)) ensures Surplus(q) == old(Surplus(q)) - m[q] {
          assert old@merged(Surplus(q)) == old(Surplus(q));
        }
      }
    }

    /** Destroy a list whose packages are held here. */
    method GiveUp(list: PackageList)
      requires Valid() && list.Valid() && list !in footprint && list.repr !! footprint
      requires forall q | q in Members(list.pkgs) :: Surplus(q) >= multiset(list.pkgs)[q]
      modifies Members(list.pkgs), list, list.repr`next
      ensures Valid()
      ensures forall q: Package | old(allocated(q)) :: Surplus(q) == old(Surplus(q)) - old(multiset(list.pkgs))[q]
    {
      ghost var ps, m := list.pkgs, multiset(list.pkgs);
      assert list.Held();
      list.Destroy();
      forall i | 0 <= i < buckets ensures SlotOk(i) {
        assert old(SlotOk(i));
      }
      forall q: Package | old(allocated(q)) ensures Surplus(q) == old(Surplus(q)) - m[q] {
        assert list.Surplus(q) == old(list.Surplus(q));
      }
      forall q | q in StoredIn(lists) ensures Surplus(q) >= 0 {
        assert old(Surplus(q)) >= 0;
        assert q in Members(ps) || m[q] == 0;
      }
    }

    /** Slot i of a replaced table still holds its list. */
    ghost predicate Kept(cur: array<PackageList?>, prev: Table, regs: seq<set<object>>, i: int)
      requires cur.Length == |prev| == |regs| && 0 <= i < |prev|
      reads cur, regs[i]
    {
      && (cur[i] != null ==> cur[i] in regs[i] && cur[i].repr <= regs[i])
      && SlotHolds(cur[i], prev[i], regs[i])
    }

    /** The slots of a replaced table from i on, the objects of which are none of this table. */
    ghost predicate Remaining(cur: array<PackageList?>, prev: Table, regs: seq<set<object>>, i: nat)
      reads this, cur, set j, o | 0 <= j < |regs| && o in regs[j] :: o
    {
      && cur.Length == |prev| == |regs| && cur !in footprint
      && (forall j | 0 <= j < |regs| :: regs[j] !! footprint + {this, cur})
      && (forall j, k | 0 <= j < k < |regs| :: regs[j] !! regs[k])
      && (forall j | i <= j < |regs| :: Kept(cur, prev, regs, j))
    }

    /** Merge the list in slot i of a replaced table into this one. */
    method RefillList(cur: array<PackageList?>, i: nat, ghost prev: Table, ghost regs: seq<set<object>>, ghost ks: set<string>)
      returns (failed: bool)
      requires Valid() && Refilling(ks)
      requires Remaining(cur, prev, regs, i) && i < |prev| && AllUniform(rules, prev) && ks == KeySet(Keys(prev))
      requires forall q | q in Members(prev[i]) :: Surplus(q) >= multiset(prev[i])[q]
      modifies this, footprint, StoredIn(lists) + Members(prev[i]), regs[i]
      ensures var r := PutAll(hash, rules, key, old(lists), prev[i]);
        && (failed <==> r.change == Failed)
        && (!failed ==> lists == r.buckets)
      ensures !failed ==> Valid() && Refilling(ks) && Remaining(cur, prev, regs, i + 1)
      ensures !failed ==> StoredIn(lists) <= old(StoredIn(lists)) + Members(prev[i])
      ensures !failed ==> fresh(footprint - old(footprint))
      ensures !failed ==> forall q: Package | old(allocated(q)) ::
                Surplus(q) == old(Surplus(q)) - multiset(prev[i])[q]
      decreases 0, 7
    {
      assert Kept(cur, prev, regs, i);
      failed := false;
      var list := cur[i];
      if list != null && list.size != 0 {
        KeyIsStored(prev, i);
        UniformIsStorable(rules, prev[i]);
        failed := Refill(list, ks, prev[i][0].data.name);
      }
      if !failed {
        forall j | i + 1 <= j < |regs| ensures Kept(cur, prev, regs, j) {
          assert old(Kept(cur, prev, regs, j)) && regs[i] !! regs[j];
        }
      }
    }

    /** Give up a slot of a replaced table. */
    method ClearSlot(cur: array<PackageList?>, i: nat, ghost prev: Table, ghost regs: seq<set<object>>)
      requires Remaining(cur, prev, regs, i + 1) && i < |prev|
      modifies cur
      ensures Remaining(cur, prev, regs, i + 1)
    {
      cur[i] := null;
      forall j | i + 1 <= j < |regs| ensures Kept(cur, prev, regs, j) {
        assert old(Kept(cur, prev, regs, j));
      }
    }

    /** Empty slot i of a replaced table into this one. */
    method RefillSlot(cur: array<PackageList?>, i: nat, ghost prev: Table, ghost regs: seq<set<object>>, ghost ks: set<string>,
                      ghost outcome: Option<Table>)
      returns (failed: bool)
      requires Valid() && Refilling(ks)
      requires Remaining(cur, prev, regs, i) && i < |prev| && AllUniform(rules, prev) && ks == KeySet(Keys(prev))
      requires forall q | q in Members(prev[i]) :: Surplus(q) >= multiset(prev[i])[q]
      requires outcome == Rehash(hash, rules, key, prev, i, lists)
      modifies this, footprint, StoredIn(lists) + Members(prev[i]), cur, regs[i]
      ensures if failed then outcome == None else |lists| > 0 && outcome == Rehash(hash, rules, key, prev, i + 1, lists)
      ensures !failed ==> Valid() && Refilling(ks) && Remaining(cur, prev, regs, i + 1)
      ensures !failed ==> StoredIn(lists) <= old(StoredIn(lists)) + Members(prev[i])
      ensures !failed ==> fresh(footprint - old(footprint))
      ensures !failed ==> forall q: Package | old(allocated(q)) ::
                Surplus(q) == old(Surplus(q)) - multiset(prev[i])[q]
      decreases 0, 8
    {
      failed := RefillList(cur, i, prev, regs, ks);
      if !failed {
        ClearSlot(cur, i, prev, regs);
        assert forall j | 0 <= j < buckets :: SlotOk(j);
      }
    }

    /** Empty every slot of a replaced table into this one. */
    method RefillAll(cur: array<PackageList?>, n: nat, ghost prev: Table, ghost regs: seq<set<object>>, ghost ks: set<string>)
      returns (failed: bool)
      requires Valid() && Refilling(ks)
      requires Remaining(cur, prev, regs, 0) && n == |prev| && AllUniform(rules, prev) && ks == KeySet(Keys(prev))
      requires StoredIn(lists) <= StoredIn(prev)
      requires forall q | q in StoredIn(prev) :: Surplus(q) >= Total(prev)[q]
      modifies this, footprint, StoredIn(prev), cur, set j, o | 0 <= j < |regs| && o in regs[j] :: o
      ensures (if failed then None else Some(lists)) == Rehash(hash, rules, key, prev, 0, old(lists))
      ensures !failed ==> Shape() && Held() && StoredIn(lists) <= StoredIn(prev)
      ensures !failed ==> fresh(footprint - old(footprint))
      ensures !failed ==> forall q: Package | old(allocated(q)) :: Surplus(q) == old(Surplus(q)) - Total(prev)[q]
      decreases 0, 9
    {
      assert prev[..0] == [];
      ghost var outcome := Rehash(hash, rules, key, prev, 0, lists);
      var i := 0;
      while i < n
        invariant i <= n && Valid() && Refilling(ks) && StoredIn(lists) <= StoredIn(prev)
        invariant fresh(footprint - old(footprint))
        invariant Remaining(cur, prev, regs, i)
        invariant outcome == Rehash(hash, rules, key, prev, i, lists)
        invariant forall q: Package | old(allocated(q)) :: Surplus(q) == old(Surplus(q)) - Total(prev[..i])[q]
      {
        ghost var m, objects := multiset(prev[i]), footprint;
        TotalOfNext(prev, i);
        forall q | q in Members(prev[i]) ensures Surplus(q) >= m[q] {
          ShareIsOwed(prev, i, q);
          assert old(Surplus(q)) >= Total(prev)[q];
        }
        label before:
        var stop := RefillSlot(cur, i, prev, regs, ks, outcome);
        if stop {
          return true;
        }
        assert fresh(footprint - objects);
        forall q: Package | old(allocated(q)) ensures Surplus(q) == old(Surplus(q)) - Total(prev[..i + 1])[q] {
          assert old@before(Surplus(q)) == old(Surplus(q)) - Total(prev[..i])[q];
        }
        i := i + 1;
      }
      assert prev[..n] == prev;
      return false;
    }

    /** Replace the table by one of the given size and merge the old lists into it. */
    method Rebuild(want: nat) returns (exited: bool)
      requires Shape() && Held() && AllUniform(rules, lists)
      requires want == 2 * entries + 1
      modifies this, footprint, StoredIn(lists)
      ensures (if exited then None else Some(lists)) == Rehash(hash, rules, key, old(lists), 0, EmptyTable(want))
      ensures !exited ==> Shape() && Held() && StoredIn(lists) <= old(StoredIn(lists))
      ensures !exited ==> fresh(footprint)
      ensures !exited ==> forall q: Package | old(allocated(q)) :: Surplus(q) == old(Surplus(q))
      decreases 1, 0
    {
      ghost var prev, regs := lists, regions;
      ghost var ks := KeySet(Keys(prev));
      var cur, n := packages, buckets;
      forall i | 0 <= i < n ensures Kept(cur, prev, regs, i) {
        assert SlotOk(i);
      }
      KeySetAtMostFullCount(Keys(prev));
      EmptyTableRoomy(hash, rules, want, ks);
      ResetTable(want);
      forall i | 0 <= i < n ensures Kept(cur, prev, regs, i) {
        assert old(SlotOk(i));
      }
      TotalEmpty(lists);
      exited := RefillAll(cur, n, prev, regs, ks);
    }

    /** lcfgpkgset_find_list: the list of a name, if any package of that name is stored. */
    method FindList(name: string) returns (list: PackageList?)
      requires Valid()
      ensures list == null <==> ListFor(hash, lists, name) == []
      ensures list != null ==> list.Valid() && list.pkgs == ListFor(hash, lists, name)
      ensures Sound(hash, Keys(lists)) ==>
                (forall q: Package :: (list != null && q in list.pkgs) <==> (q in StoredIn(lists) && q.data.name == name))
    {
      if Sound(hash, Keys(lists)) {
        FoundIsStored(hash, rules, lists, name);
      }
      list := null;
      var done, slot := FindSlot(name);
      if done {
        assert SlotOk(slot);
        list := packages[slot];
      }
    }

    /** lcfgpkgset_find_package: the first package of a name that a lookup by architecture accepts. */
    method FindPackage(name: string, arch: string) returns (result: Package?)
      requires Valid()
      ensures var l := ListFor(hash, lists, name);
              var i := FirstNamed(l, name, arch);
              result == if i < |l| then l[i] else null
      ensures Sound(hash, Keys(lists)) ==>
                (result == null <==> forall q | q in StoredIn(lists) :: !Match(q.data, name, arch))
    {
      result := null;
      if Sound(hash, Keys(lists)) {
        FoundIsStored(hash, rules, lists, name);
        NoneNamed(ListFor(hash, lists, name), name, arch);
      }
      var list := FindList(name);
      if list != null {
        var node := list.FindNode(name, arch);
        if node != null {
          result := node.data;
        }
      }
    }
  }
}

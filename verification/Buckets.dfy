/**
 The table of a package set as a value: in each slot the list of the packages of
 one name, found by linear probing, and what merging and resizing make of it.
 */
module Buckets {
  import opened Merging
  import opened Probing

  type Table = seq<seq<Package>>

  function SlotKey(l: seq<Package>): Slot<string> {
    if l == [] then Free else Full(l[0].data.name)
  }

  function Keys(b: Table): (t: seq<Slot<string>>)
    ensures |t| == |b| && forall i | 0 <= i < |b| :: t[i] == SlotKey(b[i])
  {
    seq(|b|, i requires 0 <= i < |b| => SlotKey(b[i]))
  }

  /** A bucket holds valid packages of one name, none of which stands for a removal. */
  predicate Uniform(rules: Rules, l: seq<Package>) {
    forall j | 0 <= j < |l| ::
      && IsValid(l[j]) && l[j].data.name == l[0].data.name
      && !(rules.usePrefix && l[j].data.prefix == PREFIX_REMOVE)
  }

  predicate AllUniform(rules: Rules, b: Table) {
    forall i | 0 <= i < |b| :: Uniform(rules, b[i])
  }

  /** The number of buckets in use. */
  function Entries(b: Table): nat {
    FullCount(Keys(b))
  }

  /** The slot where the search for a name stops. */
  function Find(hash: string -> nat, b: Table, name: string): (i: nat)
    requires |b| > 0
    ensures i <= |b|
    ensures i < |b| ==> SlotKey(b[i]) == Free || SlotKey(b[i]) == Full(name)
  {
    Probe(Keys(b), Home(hash, Keys(b), name), name)
  }

  /** The packages of a name, as the set finds them. */
  function ListFor(hash: string -> nat, b: Table, name: string): seq<Package>
    requires |b| > 0
  {
    var i := Find(hash, b, name);
    if i < |b| then b[i] else []
  }

  datatype SetMerged = SetMerged(change: Change, buckets: Table)

  /** Merging a package into its bucket, before any resize. */
  function Put(hash: string -> nat, rules: Rules, key: PrimaryKey, b: Table, p: Package): SetMerged
    requires |b| > 0
  {
    var i := Find(hash, b, p.data.name);
    if !IsValid(p) || i == |b| then SetMerged(Failed, b)
    else
      var m := Merge(rules, key, b[i], p);
      SetMerged(m.change, b[i := m.pkgs])
  }

  // ---------------------------------------------------------------------
  // One package
  // ---------------------------------------------------------------------

  lemma MergeUniform(rules: Rules, key: PrimaryKey, l: seq<Package>, p: Package)
    requires Uniform(rules, l) && (l == [] || l[0].data.name == p.data.name)
    ensures var t := Merge(rules, key, l, p).pkgs;
      && Uniform(rules, t)
      && (t != [] ==> t[0].data.name == p.data.name)
  {
    var t := Merge(rules, key, l, p).pkgs;
    forall x | x in t
      ensures IsValid(x) && x.data.name == p.data.name && !(rules.usePrefix && x.data.prefix == PREFIX_REMOVE)
    {
      if x !in l {
        assert x == p;
      }
    }
  }

  /** Only a package that stands for a removal can empty a bucket. */
  lemma MergeKeepsNonEmpty(rules: Rules, key: PrimaryKey, l: seq<Package>, p: Package)
    requires l != [] && !(rules.usePrefix && p.data.prefix == PREFIX_REMOVE)
    ensures Merge(rules, key, l, p).pkgs != []
  {
  }

  lemma PutShape(hash: string -> nat, rules: Rules, key: PrimaryKey, b: Table, p: Package)
    requires |b| > 0 && AllUniform(rules, b)
    ensures var c := Put(hash, rules, key, b, p).buckets;
      && |c| == |b| && AllUniform(rules, c)
      && KeySet(Keys(c)) <= KeySet(Keys(b)) + {p.data.name}
      && Entries(c) <= Entries(b) + 1
  {
    var i := Find(hash, b, p.data.name);
    if IsValid(p) && i < |b| {
      MergeUniform(rules, key, b[i], p);
      var l := Merge(rules, key, b[i], p).pkgs;
      assert Keys(b[i := l]) == Keys(b)[i := SlotKey(l)];
      FullCountUpdate(Keys(b), i, SlotKey(l));
    }
  }

  /** A table with a free slot never turns a valid package away for lack of space. */
  lemma PutFindsSpace(hash: string -> nat, b: Table, name: string)
    requires Entries(b) < |b|
    ensures Find(hash, b, name) < |b|
  {
    var t := Keys(b);
    NotFullHasFree(t);
    var f :| 0 <= f < |t| && t[f] == Free;
    ProbeFromAnyFree(t, Home(hash, t, name), name, 0, f);
  }

  lemma ListForStored(hash: string -> nat, b: Table, name: string, i: nat)
    requires |b| > 0 && Sound(hash, Keys(b)) && i < |b| && SlotKey(b[i]) == Full(name)
    ensures Find(hash, b, name) == i && ListFor(hash, b, name) == b[i]
  {
    StoredIsFound(hash, Keys(b), name, i);
  }

  /** Unless it empties a bucket, merging a package keeps the probe chains. */
  lemma PutKeepsSound(hash: string -> nat, rules: Rules, key: PrimaryKey, b: Table, p: Package)
    requires |b| > 0 && Sound(hash, Keys(b)) && AllUniform(rules, b)
    requires ListFor(hash, b, p.data.name) == [] || Merge(rules, key, ListFor(hash, b, p.data.name), p).pkgs != []
    ensures Sound(hash, Keys(Put(hash, rules, key, b, p).buckets))
  {
    var i := Find(hash, b, p.data.name);
    if IsValid(p) && i < |b| {
      MergeUniform(rules, key, b[i], p);
      var l := Merge(rules, key, b[i], p).pkgs;
      assert Keys(b[i := l]) == Keys(b)[i := SlotKey(l)];
      if b[i] == [] && l != [] {
        FillKeepsSound(hash, Keys(b), p.data.name);
      } else {
        assert Keys(b)[i := SlotKey(l)] == Keys(b);
      }
    }
  }

  lemma NotStoredIsEmpty(hash: string -> nat, b: Table, name: string)
    requires |b| > 0
    requires forall j | 0 <= j < |b| :: SlotKey(b[j]) != Full(name)
    ensures ListFor(hash, b, name) == []
  {
  }

  /** What ListFor finds depends on the bucket of the name alone. */
  lemma ListForUnchanged(hash: string -> nat, b: Table, c: Table, name: string)
    requires |b| > 0 && |c| > 0 && Sound(hash, Keys(b)) && Sound(hash, Keys(c))
    requires forall l: seq<Package> | SlotKey(l) == Full(name) :: l in b <==> l in c
    ensures ListFor(hash, c, name) == ListFor(hash, b, name)
  {
    if j :| 0 <= j < |b| && SlotKey(b[j]) == Full(name) {
      ListForStored(hash, b, name, j);
      assert b[j] in b && b[j] in c;
      var k :| 0 <= k < |c| && c[k] == b[j];
      ListForStored(hash, c, name, k);
    } else {
      NotStoredIsEmpty(hash, b, name);
      forall k | 0 <= k < |c| ensures SlotKey(c[k]) != Full(name) {
        assert c[k] in c;
      }
      NotStoredIsEmpty(hash, c, name);
    }
  }

  /**
   The set does for the name of p what merging into one list does, reports the
   same change, and leaves the packages of all other names alone.
   */
  lemma PutListFor(hash: string -> nat, rules: Rules, key: PrimaryKey, b: Table, p: Package, name: string)
    requires |b| > 0 && Sound(hash, Keys(b)) && AllUniform(rules, b)
    requires Entries(b) < |b| && IsValid(p)
    requires ListFor(hash, b, p.data.name) == [] || Merge(rules, key, ListFor(hash, b, p.data.name), p).pkgs != []
    ensures var r, m := Put(hash, rules, key, b, p), Merge(rules, key, ListFor(hash, b, p.data.name), p);
      && r.change == m.change
      && ListFor(hash, r.buckets, name) == if name == p.data.name then m.pkgs else ListFor(hash, b, name)
  {
    PutFindsSpace(hash, b, p.data.name);
    PutKeepsSound(hash, rules, key, b, p);
    var i := Find(hash, b, p.data.name);
    MergeUniform(rules, key, b[i], p);
    var l := Merge(rules, key, b[i], p).pkgs;
    PutAtListFor(hash, b, i, l, p.data.name, name);
  }

  lemma PutAtListFor(hash: string -> nat, b: Table, i: nat, l: seq<Package>, changed: string, name: string)
    requires i < |b| && Sound(hash, Keys(b)) && Sound(hash, Keys(b[i := l]))
    requires i == Find(hash, b, changed)
    requires l == [] || SlotKey(l) == Full(changed)
    ensures ListFor(hash, b[i := l], name) == if name == changed then l else ListFor(hash, b, name)
  {
    var c := b[i := l];
    if name != changed {
      forall m: seq<Package> | SlotKey(m) == Full(name) ensures m in b <==> m in c {
        if j :| 0 <= j < |b| && b[j] == m {
          assert c[j] == m;
        }
      }
      ListForUnchanged(hash, b, c, name);
    } else if l != [] {
      ListForStored(hash, c, name, i);
    } else {
      forall j | 0 <= j < |c| ensures SlotKey(c[j]) != Full(name) {
        if j != i && SlotKey(b[j]) == Full(name) {
          ListForStored(hash, b, name, j);
        }
      }
      NotStoredIsEmpty(hash, c, name);
    }
  }
}

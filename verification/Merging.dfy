/**
 What merging one package into a list means (lcfgpkglist_merge_package of
 packages/list.c), as a function on the sequence of stored packages.
 */
module Merging {
  import opened CText
  import opened PackageOrder

  datatype Option<+T> = None | Some(value: T)

  const PREFIX_NONE := NUL
  const PREFIX_ADD := '+'
  const PREFIX_REMOVE := '-'
  const PREFIX_UPDATE := '?'
  const PREFIX_PIN := '!'
  const PREFIX_ANY := '~'
  const PREFIX_MIN := '>'

  predicate ValidPrefix(c: char) {
    c in {PREFIX_NONE, PREFIX_ADD, PREFIX_REMOVE, PREFIX_UPDATE, PREFIX_PIN, PREFIX_ANY, PREFIX_MIN}
  }

  predicate ValidArch(arch: string) {
    forall i | 0 <= i < |arch| :: IsWord(arch[i]) || arch[i] == '-'
  }

  predicate NulFreeFields(p: Pkg) {
    && NulFree(p.name) && NulFree(p.arch) && NulFree(p.version)
    && NulFree(p.release) && NulFree(p.flags) && NulFree(p.context)
  }

  /** Package fields as the setters of packages/package.c leave them. */
  type PkgFields = p: Pkg | NulFreeFields(p) && ValidPrefix(p.prefix) && ValidArch(p.arch)
    witness Pkg("", "", "", "", "", "", NUL, 0)

  /**
   A package structure. No merge changes its fields; refs is its reference
   count, and the structure is destroyed when that reaches zero.
   */
  class Package {
    const data: PkgFields
    var refs: nat

    constructor (data: PkgFields)
      ensures this.data == data && refs == 1
    {
      this.data, refs := data, 1;
    }
  }

  datatype Rules = Rules(keepAll: bool, squash: bool, usePriority: bool, usePrefix: bool, replace: bool)

  /** Which fields besides the name make up the primary key of a list. */
  datatype PrimaryKey = PrimaryKey(byArch: bool, byContext: bool)

  datatype Change = Failed | Unchanged | Modified | Added | Replaced | Removed

  predicate IsValid(p: Package) {
    p.data.name != ""
  }

  /** lcfgpackage_match, where an arch of "*" stands for any. */
  predicate Match(q: Pkg, name: string, arch: string) {
    q.name == name && (arch == WILDCARD || q.arch == arch)
  }

  predicate Matches(key: PrimaryKey, q: Package, p: Package) {
    && Match(q.data, p.data.name, if key.byArch then p.data.arch else WILDCARD)
    && (key.byContext ==> q.data.context == p.data.context)
  }

  /** Matching is agreement on the key fields, since no stored arch is "*". */
  lemma MatchesIsKeyEquality(key: PrimaryKey, q: Package, p: Package)
    ensures Matches(key, q, p) <==>
            && q.data.name == p.data.name
            && (key.byArch ==> q.data.arch == p.data.arch)
            && (key.byContext ==> q.data.context == p.data.context)
  {
    assert !ValidArch(WILDCARD) by {
      assert !IsWord(WILDCARD[0]);
    }
  }

  /** The index of the first stored package that p conflicts with, or |s|. */
  function FirstMatch(key: PrimaryKey, s: seq<Package>, p: Package): (i: nat)
    ensures i <= |s|
    ensures i < |s| ==> Matches(key, s[i], p)
    ensures forall j | 0 <= j < i :: !Matches(key, s[j], p)
  {
    if s == [] || Matches(key, s[0], p) then 0 else 1 + FirstMatch(key, s[1..], p)
  }

  datatype Decision = Decision(accept: bool, removeOld: bool, appendNew: bool)

  const REJECT := Decision(false, false, false)
  const IGNORE := Decision(true, false, false)
  const APPEND := Decision(true, false, true)
  const REPLACE := Decision(true, true, true)
  const REMOVE := Decision(true, true, false)

  /** The verdict of the prefix rule on a new package that has a prefix. */
  function DecideByPrefix(cur: Option<Package>, p: Package): Decision
    requires p.data.prefix != PREFIX_NONE
  {
    var pinned := cur.Some? && cur.value.data.prefix == PREFIX_PIN;
    match p.data.prefix
    case '-' => if pinned then REJECT else REMOVE
    case '+' => if pinned then REJECT else REPLACE
    case '!' => if pinned then REJECT else REPLACE
    case '~' => if cur.None? then APPEND else IGNORE
    case '?' => if cur.None? || pinned then IGNORE else REPLACE
    case '>' =>
      if cur.None? then REPLACE
      else if CompareVersions(p.data, cur.value.data) <= 0 then IGNORE
      else if pinned then REJECT
      else REPLACE
    case _ => REJECT
  }

  /** The prefix of p decides its merge. */
  predicate InForce(rules: Rules, p: Package) {
    rules.usePrefix && p.data.prefix != PREFIX_NONE
  }

  /** The verdict of all rules, applied in order, on merging p where cur has its key. */
  function Decide(rules: Rules, cur: Option<Package>, p: Package): Decision {
    if cur == Some(p) then IGNORE
    else if InForce(rules, p) then DecideByPrefix(cur, p)
    else if cur.None? then APPEND
    else if rules.squash && Equals(cur.value.data, p.data) then REPLACE
    else if rules.keepAll then APPEND
    else if rules.replace then REPLACE
    else if rules.usePriority && p.data.priority > cur.value.data.priority then REPLACE
    else if rules.usePriority && p.data.priority < cur.value.data.priority then IGNORE
    else REJECT
  }

  datatype Merged = Merged(change: Change, pkgs: seq<Package>)

  /** s with the element at i taken out. */
  function Without<T>(s: seq<T>, i: nat): (r: seq<T>)
    requires i < |s|
    ensures |r| == |s| - 1
    ensures forall j {:trigger r[j]} | 0 <= j < |r| :: r[j] == s[if j < i then j else j + 1]
    ensures forall x | x in r :: x in s
    ensures forall x | x in s :: x == s[i] || x in r
  {
    var r := seq(|s| - 1, j requires 0 <= j < |s| - 1 => s[if j < i then j else j + 1]);
    assert forall k {:trigger s[k]} | 0 <= k < |s| && k != i :: s[k] == r[if k < i then k else k - 1];
    r
  }

  /** s with x put in before position i. */
  function Insert<T>(s: seq<T>, i: nat, x: T): (r: seq<T>)
    requires i <= |s|
    ensures |r| == |s| + 1
    ensures forall j {:trigger r[j]} | 0 <= j < |r| :: r[j] == if j < i then s[j] else if j == i then x else s[j - 1]
  {
    seq(|s| + 1, j requires 0 <= j <= |s| => if j < i then s[j] else if j == i then x else s[j - 1])
  }

  lemma WithoutMultiset<T>(s: seq<T>, i: nat)
    requires i < |s|
    ensures multiset(s) == multiset(Without(s, i)) + multiset{s[i]}
  {
    assert s == s[..i] + [s[i]] + s[i + 1..];
    assert Without(s, i) == s[..i] + s[i + 1..];
  }

  lemma InsertMultiset<T>(s: seq<T>, i: nat, x: T)
    requires i <= |s|
    ensures multiset(Insert(s, i, x)) == multiset(s) + multiset{x}
  {
    assert s == s[..i] + s[i..];
    assert Insert(s, i, x) == s[..i] + [x] + s[i..];
  }

  function Current(key: PrimaryKey, s: seq<Package>, p: Package): Option<Package> {
    var i := FirstMatch(key, s, p);
    if i < |s| then Some(s[i]) else None
  }

  /** The packages whose reference counts merging p may change. */
  function Touched(key: PrimaryKey, s: seq<Package>, p: Package): (r: set<Package>)
    ensures r <= Members(s) + {p}
  {
    var i := FirstMatch(key, s, p);
    if i < |s| then {p, s[i]} else {p}
  }

  function Members(s: seq<Package>): set<Package> {
    set q | q in s
  }

  /** Carrying out a decision about p, where i is the index of the entry with its key. */
  function Outcome(d: Decision, s: seq<Package>, i: nat, p: Package): Merged
    requires i <= |s|
  {
    var removes := d.removeOld && i < |s|;
    var kept := if removes then Without(s, i) else s;
    if !d.accept then Merged(Failed, s)
    else if d.appendNew then Merged(if removes then Replaced else Added, kept + [p])
    else Merged(if removes then Removed else Unchanged, kept)
  }

  function Merge(rules: Rules, key: PrimaryKey, s: seq<Package>, p: Package): Merged {
    if !IsValid(p) then Merged(Failed, s)
    else Outcome(Decide(rules, Current(key, s, p), p), s, FirstMatch(key, s, p), p)
  }

  /** lcfgpkglist_merge_list: merge in order, skip invalid ones, stop at an error. */
  function MergeAll(rules: Rules, key: PrimaryKey, s: seq<Package>, ps: seq<Package>): Merged
    decreases |ps|
  {
    if ps == [] then Merged(Unchanged, s)
    else if !IsValid(ps[0]) then MergeAll(rules, key, s, ps[1..])
    else
      var first := Merge(rules, key, s, ps[0]);
      if first.change == Failed then Merged(Failed, s)
      else
        var rest := MergeAll(rules, key, first.pkgs, ps[1..]);
        if rest.change == Unchanged && first.change != Unchanged then Merged(Modified, rest.pkgs) else rest
  }

  /** The list has come to now, and merging the rest of the packages decides the outcome. */
  predicate OnTrack(rules: Rules, key: PrimaryKey, outcome: Merged, change: Change, now: seq<Package>, rest: seq<Package>) {
    outcome ==
    if change == Failed then Merged(Failed, now)
    else
      var r := MergeAll(rules, key, now, rest);
      if r.change == Unchanged then Merged(change, r.pkgs) else r
  }

  /** The change of a list so far and that of the next merge, as merging a list reports them. */
  function Combine(sofar: Change, rc: Change): Change {
    if rc == Failed then Failed else if rc != Unchanged then Modified else sofar
  }

  lemma OnTrackEnd(rules: Rules, key: PrimaryKey, outcome: Merged, change: Change, now: seq<Package>, rest: seq<Package>)
    requires OnTrack(rules, key, outcome, change, now, rest)
    requires change == Failed || rest == []
    ensures outcome == Merged(change, now)
  {
  }

  lemma OnTrackStep(rules: Rules, key: PrimaryKey, outcome: Merged, change: Change, now: seq<Package>, rest: seq<Package>)
    requires OnTrack(rules, key, outcome, change, now, rest)
    requires change != Failed && rest != [] && IsValid(rest[0])
    ensures var m := Merge(rules, key, now, rest[0]);
      OnTrack(rules, key, outcome, Combine(change, m.change), m.pkgs, rest[1..])
  {
  }

  /** Any run of single merges, going on after those that are rejected. */
  function Run(rules: Rules, key: PrimaryKey, s: seq<Package>, ps: seq<Package>): seq<Package>
    decreases |ps|
  {
    if ps == [] then s else Run(rules, key, Merge(rules, key, s, ps[0]).pkgs, ps[1..])
  }

  // ---------------------------------------------------------------------
  // Invariants of one list
  // ---------------------------------------------------------------------

  /** No two entries share a key. */
  predicate DistinctKeys(key: PrimaryKey, s: seq<Package>) {
    forall i, j | 0 <= i < j < |s| :: !Matches(key, s[i], s[j])
  }

  predicate AllValid(s: seq<Package>) {
    forall i | 0 <= i < |s| :: IsValid(s[i])
  }

  lemma WithoutKeepsKeysDistinct(key: PrimaryKey, s: seq<Package>, i: nat)
    requires i < |s| && DistinctKeys(key, s)
    ensures DistinctKeys(key, Without(s, i))
  {
    var t := Without(s, i);
    forall a, b | 0 <= a < b < |t| ensures !Matches(key, t[a], t[b]) {
      assert t[a] == s[if a < i then a else a + 1];
      assert t[b] == s[if b < i then b else b + 1];
    }
  }

  /** With distinct keys, nothing else matches once the first match is gone. */
  lemma NoSecondMatch(key: PrimaryKey, s: seq<Package>, p: Package)
    requires DistinctKeys(key, s) && FirstMatch(key, s, p) < |s|
    ensures forall q | q in Without(s, FirstMatch(key, s, p)) :: !Matches(key, q, p)
  {
    var i := FirstMatch(key, s, p);
    forall j | 0 <= j < |s| && j != i ensures !Matches(key, s[j], p) {
      if j > i {
        MatchesIsKeyEquality(key, s[i], p);
        MatchesIsKeyEquality(key, s[j], p);
        MatchesIsKeyEquality(key, s[i], s[j]);
      }
    }
  }

  /** Unless everything is kept, merging never stores two packages with one key. */
  lemma MergeKeepsKeysDistinct(rules: Rules, key: PrimaryKey, s: seq<Package>, p: Package)
    requires !rules.keepAll || InForce(rules, p)
    requires DistinctKeys(key, s)
    ensures DistinctKeys(key, Merge(rules, key, s, p).pkgs)
  {
    var i := FirstMatch(key, s, p);
    if i < |s| {
      WithoutKeepsKeysDistinct(key, s, i);
      NoSecondMatch(key, s, p);
    }
  }
}

/**
 Linear probing as packages/set.c and common/derivation/map.c do it: from the
 home slot to the end of the table, then from its start up to the home slot.
 A table is the sequence of the keys in its slots.
 */
module Probing {

  datatype Slot<+K> = Free | Full(key: K)

  /** The d-th slot that is visited from slot h of n. */
  function SlotAt(h: nat, d: nat, n: nat): (i: nat)
    requires h < n && d < n
    ensures i < n
  {
    if h + d < n then h + d else h + d - n
  }

  /** How many slots are visited from h before i. */
  function Distance(h: nat, i: nat, n: nat): (d: nat)
    requires h < n && i < n
    ensures d < n && SlotAt(h, d, n) == i
  {
    if i >= h then i - h else i + n - h
  }

  /** Where a probe for k from slot h stops after d slots were full of other keys; |t| is nowhere. */
  function ProbeFrom<K(==)>(t: seq<Slot<K>>, h: nat, k: K, d: nat): (i: nat)
    requires h < |t| && d <= |t|
    ensures i <= |t|
    ensures i < |t| ==> t[i] == Free || t[i] == Full(k)
    decreases |t| - d
  {
    if d == |t| then |t|
    else
      var i := SlotAt(h, d, |t|);
      if t[i] == Free || t[i] == Full(k) then i else ProbeFrom(t, h, k, d + 1)
  }

  function Probe<K(==)>(t: seq<Slot<K>>, h: nat, k: K): (i: nat)
    requires h < |t|
    ensures i <= |t|
    ensures i < |t| ==> t[i] == Free || t[i] == Full(k)
  {
    ProbeFrom(t, h, k, 0)
  }

  function Home<K>(home: K -> nat, t: seq<Slot<K>>, k: K): (h: nat)
    requires |t| > 0
    ensures h < |t|
  {
    home(k) % |t|
  }

  /** No slot between the home of the key in slot i and i itself is free. */
  ghost predicate Reachable<K>(home: K -> nat, t: seq<Slot<K>>, i: nat)
    requires i < |t| && t[i].Full?
  {
    var h := Home(home, t, t[i].key);
    forall d {:trigger SlotAt(h, d, |t|)} | 0 <= d < Distance(h, i, |t|) :: t[SlotAt(h, d, |t|)].Full?
  }

  ghost predicate Chained<K>(home: K -> nat, t: seq<Slot<K>>) {
    forall i | 0 <= i < |t| && t[i].Full? :: Reachable(home, t, i)
  }

  predicate Unique<K(==)>(t: seq<Slot<K>>) {
    forall i, j | 0 <= i < j < |t| && t[i].Full? && t[j].Full? :: t[i].key != t[j].key
  }

  ghost predicate Sound<K>(home: K -> nat, t: seq<Slot<K>>) {
    |t| > 0 && Chained(home, t) && Unique(t)
  }

  predicate Stored<K(==)>(t: seq<Slot<K>>, k: K) {
    exists i | 0 <= i < |t| :: t[i] == Full(k)
  }

  lemma {:induction false} ProbeFromReaches<K>(t: seq<Slot<K>>, h: nat, k: K, d: nat, i: nat)
    requires h < |t| && i < |t| && d <= Distance(h, i, |t|)
    requires t[i] == Free || t[i] == Full(k)
    requires forall e | d <= e < Distance(h, i, |t|) ::
               t[SlotAt(h, e, |t|)].Full? && t[SlotAt(h, e, |t|)].key != k
    ensures ProbeFrom(t, h, k, d) == i
    decreases |t| - d
  {
    if d < Distance(h, i, |t|) {
      ProbeFromReaches(t, h, k, d + 1, i);
    }
  }

  lemma ProbeFromStep<K>(t: seq<Slot<K>>, h: nat, k: K, d: nat, i: nat)
    requires h < |t| && d < |t| && i == SlotAt(h, d, |t|)
    ensures ProbeFrom(t, h, k, d) == if t[i] == Free || t[i] == Full(k) then i else ProbeFrom(t, h, k, d + 1)
  {
  }

  lemma {:induction false} ProbeFromAnyFree<K>(t: seq<Slot<K>>, h: nat, k: K, d: nat, i: nat)
    requires h < |t| && i < |t| && d <= Distance(h, i, |t|)
    requires t[i] == Free
    ensures ProbeFrom(t, h, k, d) < |t|
    decreases |t| - d
  {
    if d < Distance(h, i, |t|) {
      ProbeFromAnyFree(t, h, k, d + 1, i);
    }
  }

  /** Everything before the slot where a probe stops is full of other keys. */
  lemma {:induction false} ProbeFromSkipsFull<K>(t: seq<Slot<K>>, h: nat, k: K, d: nat, e: nat)
    requires h < |t| && d <= e && d <= |t|
    requires ProbeFrom(t, h, k, d) < |t|
    requires e < Distance(h, ProbeFrom(t, h, k, d), |t|)
    ensures d < |t| && SlotAt(h, e, |t|) < |t| && t[SlotAt(h, e, |t|)].Full? && t[SlotAt(h, e, |t|)].key != k
    decreases |t| - d
  {
    if d < e && t[SlotAt(h, d, |t|)].Full? && t[SlotAt(h, d, |t|)].key != k {
      ProbeFromSkipsFull(t, h, k, d + 1, e);
    }
  }

  /**
   A probe decides membership: in a sound table with a free slot it stops, and
   it stops at the key exactly when the table stores it.
   */
  lemma ProbeDecides<K>(home: K -> nat, t: seq<Slot<K>>, k: K)
    requires Sound(home, t)
    requires exists i | 0 <= i < |t| :: t[i] == Free
    ensures var i := Probe(t, Home(home, t, k), k);
      && i < |t|
      && (Stored(t, k) <==> t[i] == Full(k))
      && forall j | 0 <= j < |t| && t[j] == Full(k) :: j == i
  {
    var h := Home(home, t, k);
    var f :| 0 <= f < |t| && t[f] == Free;
    ProbeFromAnyFree(t, h, k, 0, f);
    if j :| 0 <= j < |t| && t[j] == Full(k) {
      StoredIsFound(home, t, k, j);
    }
  }

  /** Even a table without a free slot yields the keys it stores. */
  lemma StoredIsFound<K>(home: K -> nat, t: seq<Slot<K>>, k: K, i: nat)
    requires Sound(home, t) && i < |t| && t[i] == Full(k)
    ensures Probe(t, Home(home, t, k), k) == i
  {
    var h := Home(home, t, k);
    assert Reachable(home, t, i);
    forall e | 0 <= e < Distance(h, i, |t|)
      ensures t[SlotAt(h, e, |t|)].Full? && t[SlotAt(h, e, |t|)].key != k
    {
      assert SlotAt(h, e, |t|) != i;
    }
    ProbeFromReaches(t, h, k, 0, i);
  }

  /** Filling the free slot where the probe for a new key stopped keeps a table sound. */
  lemma FillKeepsSound<K>(home: K -> nat, t: seq<Slot<K>>, k: K)
    requires Sound(home, t)
    requires Probe(t, Home(home, t, k), k) < |t| && t[Probe(t, Home(home, t, k), k)] == Free
    ensures Sound(home, t[Probe(t, Home(home, t, k), k) := Full(k)])
  {
    var h := Home(home, t, k);
    var s := Probe(t, h, k);
    var u := t[s := Full(k)];
    assert forall j | 0 <= j < |t| && t[j].Full? :: u[j].Full?;
    forall i | 0 <= i < |u| && u[i].Full? ensures Reachable(home, u, i) {
      var g := Home(home, u, u[i].key);
      forall d {:trigger SlotAt(g, d, |u|)} | 0 <= d < Distance(g, i, |u|) ensures u[SlotAt(g, d, |u|)].Full? {
        if i == s {
          ProbeFromSkipsFull(t, h, k, 0, d);
        } else {
          assert u[i] == t[i] && Reachable(home, t, i);
          assert g == Home(home, t, t[i].key);
          assert t[SlotAt(g, d, |t|)].Full?;
        }
      }
    }
    forall i, j | 0 <= i < j < |u| && u[i].Full? && u[j].Full? ensures u[i].key != u[j].key {
      if i == s && t[j] == Full(k) {
        StoredIsFound(home, t, k, j);
      }
      if j == s && t[i] == Full(k) {
        StoredIsFound(home, t, k, i);
      }
    }
  }

  /** The key in slot j is found by a probe that passes over slot i. */
  predicate PassesOver<K(==)>(home: K -> nat, t: seq<Slot<K>>, j: nat, i: nat)
    requires i < |t| && j < |t| && t[j].Full?
  {
    var h := Home(home, t, t[j].key);
    Distance(h, i, |t|) < Distance(h, j, |t|)
  }

  /**
   Setting a slot free, without leaving a mark, keeps the chains exactly when no
   other key is found by passing over it.
   */
  lemma FreeKeepsChainsExactly<K>(home: K -> nat, t: seq<Slot<K>>, i: nat)
    requires Sound(home, t) && i < |t|
    ensures Sound(home, t[i := Free]) <==>
            forall j | 0 <= j < |t| && j != i && t[j].Full? :: !PassesOver(home, t, j, i)
  {
    var u := t[i := Free];
    forall j | 0 <= j < |t| && j != i && t[j].Full?
      ensures Reachable(home, u, j) <==> !PassesOver(home, t, j, i)
    {
      assert Reachable(home, t, j);
      var h := Home(home, t, t[j].key);
      assert SlotAt(h, Distance(h, i, |t|), |t|) == i;
    }
  }

  /** The slot that lies d slots behind h, going on at the start of the table after its end. */
  function Behind(h: nat, d: nat, n: nat): (i: nat)
    requires h < n && d < n
    ensures i < n && (i == h + d || i + n == h + d)
  {
    if h + d < n then h + d else h + d - n
  }

  /** A search for k from slot h stops d slots further on. */
  predicate Stops<K(==)>(t: seq<Slot<K>>, h: nat, k: K, d: nat)
    requires h < |t| && d < |t|
  {
    var i := Behind(h, d, |t|);
    t[i] == Free || t[i] == Full(k)
  }

  lemma {:induction false} ProbeFromFirst<K>(t: seq<Slot<K>>, h: nat, k: K, d: nat, e: nat)
    requires h < |t| && d <= e <= |t|
    requires forall c | d <= c < e :: !Stops(t, h, k, c)
    requires e < |t| ==> Stops(t, h, k, e)
    ensures ProbeFrom(t, h, k, d) == if e < |t| then Behind(h, e, |t|) else |t|
    decreases e - d
  {
    if d < |t| {
      ProbeFromStep(t, h, k, d, SlotAt(h, d, |t|));
      if d < e {
        assert !Stops(t, h, k, d);
        ProbeFromFirst(t, h, k, d + 1, e);
      }
    }
  }

  /** A search from slot h visits h, h + 1 and so on, around the end of the table, and stops at the first slot that is free or has the key; nowhere if none is. */
  lemma ProbeIsFirst<K>(t: seq<Slot<K>>, h: nat, k: K, e: nat)
    requires h < |t| && e <= |t|
    requires forall d | 0 <= d < e :: !Stops(t, h, k, d)
    requires e < |t| ==> Stops(t, h, k, e)
    ensures Probe(t, h, k) == if e < |t| then Behind(h, e, |t|) else |t|
  {
    ProbeFromFirst(t, h, k, 0, e);
  }

  // ---------------------------------------------------------------------
  // Counting
  // ---------------------------------------------------------------------

  function FullCount<K>(t: seq<Slot<K>>): (n: nat)
    ensures n <= |t|
  {
    if t == [] then 0 else (if t[0].Full? then 1 else 0) + FullCount(t[1..])
  }

  function KeySet<K(==)>(t: seq<Slot<K>>): set<K> {
    set i | 0 <= i < |t| && t[i].Full? :: t[i].key
  }

  lemma {:induction false} NotFullHasFree<K>(t: seq<Slot<K>>)
    requires FullCount(t) < |t|
    ensures exists i | 0 <= i < |t| :: t[i] == Free
  {
    if t[0].Full? {
      NotFullHasFree(t[1..]);
      var i :| 0 <= i < |t| - 1 && t[1..][i] == Free;
      assert t[i + 1] == Free;
    } else {
      assert t[0] == Free;
    }
  }

  lemma {:induction false} FullCountUpdate<K>(t: seq<Slot<K>>, i: nat, s: Slot<K>)
    requires i < |t|
    ensures FullCount(t[i := s]) == FullCount(t) + (if s.Full? then 1 else 0) - (if t[i].Full? then 1 else 0)
  {
    if i == 0 {
      assert t[i := s][1..] == t[1..];
    } else {
      assert t[i := s][1..] == t[1..][i - 1 := s];
      FullCountUpdate(t[1..], i - 1, s);
    }
  }

  lemma {:induction false} KeySetAtMostFullCount<K>(t: seq<Slot<K>>)
    ensures |KeySet(t)| <= FullCount(t)
  {
    if t != [] {
      var rest := t[1..];
      assert forall i | 0 <= i < |rest| :: rest[i] == t[i + 1];
      KeySetAtMostFullCount(rest);
      var first := if t[0].Full? then {t[0].key} else {};
      assert KeySet(t) == KeySet(rest) + first;
    } else {
      assert KeySet(t) == {};
    }
  }

  lemma SubsetSize<K>(a: set<K>, b: set<K>)
    requires a <= b
    ensures |a| <= |b|
  {
    assert b == a + (b - a);
  }

  /** Without repetition there are as many full slots as keys. */
  lemma {:induction false} FullCountIsKeyCount<K>(t: seq<Slot<K>>)
    requires Unique(t)
    ensures FullCount(t) == |KeySet(t)|
  {
    if t != [] {
      var rest := t[1..];
      assert forall i | 0 <= i < |rest| :: rest[i] == t[i + 1];
      FullCountIsKeyCount(rest);
      if t[0].Full? {
        assert t[0].key !in KeySet(rest);
        assert KeySet(t) == KeySet(rest) + {t[0].key};
      } else {
        assert KeySet(t) == KeySet(rest);
      }
    } else {
      assert KeySet(t) == {};
    }
  }

  lemma {:induction false} NoneFullCount<K>(t: seq<Slot<K>>)
    requires forall i | 0 <= i < |t| :: t[i] == Free
    ensures FullCount(t) == 0
  {
    if t != [] {
      NoneFullCount(t[1..]);
    }
  }
}

/**
 The derivation map of common/derivation/map.c: an open-addressed memo of parsed
 derivation strings, keyed by a 64 bit fingerprint of the string.
 */
module DerivationMaps {
  import opened Merging
  import opened Probing

  const DEFAULT_SIZE := 1999

  /** A derivation list: what the parser made of a string, and the id it is stored under. */
  class DerivationList {
    const content: seq<string>
    var id: nat

    constructor (content: seq<string>)
      ensures this.content == content && id == 0
    {
      this.content, id := content, 0;
    }
  }

  /** The home slot of an id is the id itself, modulo the table size. */
  function IdHome(id: nat): nat { id }

  class DerivationMap {
    const fingerprint: string -> nat
    const parse: string -> Option<seq<string>>
    var derivations: array<DerivationList?>
    var buckets: nat
    var entries: nat

    ghost var ids: seq<Slot<nat>>
    ghost var cache: map<nat, DerivationList>
    ghost var used: set<string>

    ghost predicate Sized()
      reads `derivations, `buckets, `entries, `ids, `cache
    {
      && derivations.Length == buckets == |ids|
      && buckets > 0
      && entries == FullCount(ids)
      && cache.Keys == KeySet(ids)
    }

    /** Slot i holds the list that the cache has for its id, or nothing. */
    ghost predicate SlotOk(i: int)
      requires Sized() && 0 <= i < buckets
      reads `derivations, `buckets, `entries, `ids, `cache, derivations, cache.Values
    {
      if derivations[i] == null then ids[i] == Free
      else
        && ids[i].Full? && ids[i].key in cache && cache[ids[i].key] == derivations[i]
        && derivations[i].id == ids[i].key && derivations[i].content != []
    }

    ghost predicate Shape()
      reads `derivations, `buckets, `entries, `ids, `cache, derivations, cache.Values
    {
      && Sized() && Sound(IdHome, ids)
      && forall i | 0 <= i < buckets :: SlotOk(i)
    }

    ghost predicate Loaded()
      reads `buckets, `entries
    {
      10 * entries < 7 * buckets
    }

    /** A state between calls: sound probe chains and a bounded load. */
    ghost predicate Valid()
      reads `derivations, `buckets, `entries, `ids, `cache, derivations, cache.Values
    {
      Shape() && Loaded()
    }

    /** During a resize: room for all ids that the old table had. */
    ghost predicate Refilling(ks: set<nat>)
      reads `ids
    {
      KeySet(ids) <= ks && 2 * |ks| < |ids|
    }

    /** Each cached list is what parsing one of the strings used so far gives, under the fingerprint of that string. */
    ghost predicate Faithful()
      reads this
    {
      forall id | id in cache :: exists s | s in used :: fingerprint(s) == id && parse(s) == Some(cache[id].content)
    }

    constructor (fingerprint: string -> nat, parse: string -> Option<seq<string>>)
      ensures this.fingerprint == fingerprint && this.parse == parse
      ensures Valid() && Faithful() && cache == map[] && used == {} && fresh(derivations) && buckets == 1999
    {
      this.fingerprint, this.parse := fingerprint, parse;
      derivations := new DerivationList?[DEFAULT_SIZE](i => null);
      buckets, entries := DEFAULT_SIZE, 0;
      ids, cache, used := seq(DEFAULT_SIZE, i => Free), map[], {};
      new;
      NoneFullCount(ids);
      assert KeySet(ids) == {};
    }

    /** One of the two loops of a search: the slots from lo up to hi, the first being the d0-th visited from h. */
    method Scan(id: nat, lo: nat, hi: nat, ghost h: nat, ghost d0: nat) returns (done: bool, slot: nat)
      requires Shape() && h < buckets
      requires lo <= hi <= buckets && d0 + (hi - lo) <= buckets
      requires lo < hi ==> if h <= lo then d0 == lo - h else hi <= h && d0 == buckets - h + lo
      ensures if done then slot < buckets && slot == ProbeFrom(ids, h, id, d0)
              else ProbeFrom(ids, h, id, d0) == ProbeFrom(ids, h, id, d0 + (hi - lo))
    {
      ghost var d := d0;
      var i := lo;
      while i < hi
        invariant lo <= i <= hi && d == d0 + (i - lo)
        invariant ProbeFrom(ids, h, id, d0) == ProbeFrom(ids, h, id, d)
      {
        assert SlotOk(i);
        ProbeFromStep(ids, h, id, d, i);
        if derivations[i] == null || derivations[i].id == id {
          return true, i;
        }
        d := d + 1;
        i := i + 1;
      }
      return false, buckets;
    }

    method FindSlot(id: nat) returns (done: bool, slot: nat)
      requires Shape()
      ensures slot == Probe(ids, Home(IdHome, ids, id), id)
      ensures done <==> slot < buckets
    {
      var h := id % buckets;
      done, slot := Scan(id, h, buckets, h, 0);
      if !done {
        done, slot := Scan(id, 0, h, h, buckets - h);
        if !done {
          slot := buckets;
        }
      }
    }

    /** With a free slot, a search stops at the id exactly when the cache has it. */
    lemma FindDecides(id: nat)
      requires Shape() && entries < buckets
      ensures var i := Probe(ids, Home(IdHome, ids, id), id);
        && i < buckets
        && (id in cache <==> derivations[i] != null)
        && (id in cache ==> ids[i] == Full(id) && cache[id] == derivations[i])
    {
      NotFullHasFree(ids);
      ProbeDecides(IdHome, ids, id);
      var i := Probe(ids, Home(IdHome, ids, id), id);
      assert SlotOk(i);
      if id in cache {
        var j :| 0 <= j < |ids| && ids[j].Full? && ids[j].key == id;
        assert ids[j] == Full(id);
      }
    }

    /** Put a list into the slot where the search for its id stopped. */
    method Place(slot: nat, list: DerivationList)
      requires Shape() && entries < buckets
      requires slot == Probe(ids, Home(IdHome, ids, list.id), list.id) && slot < buckets
      requires list.content != []
      modifies `ids, `cache, `entries, derivations
      ensures Shape() && cache == old(cache)[list.id := list]
      ensures entries == old(entries) + if list.id in old(cache) then 0 else 1
      ensures buckets == old(buckets)
    {
      FindDecides(list.id);
      FullCountUpdate(ids, slot, Full(list.id));
      if derivations[slot] == null {
        FillKeepsSound(IdHome, ids, list.id);
        entries := entries + 1;
      } else {
        assert ids[slot := Full(list.id)] == ids;
      }
      derivations[slot] := list;
      ids := ids[slot := Full(list.id)];
      cache := cache[list.id := list];
      assert KeySet(ids) == old(KeySet(ids)) + {list.id} by {
        assert ids[slot].Full? && ids[slot].key == list.id;
        forall k | k in old(KeySet(ids)) ensures k in KeySet(ids) {
          var j :| 0 <= j < |ids| && old(ids)[j].Full? && old(ids)[j].key == k;
          assert ids[j].Full? && ids[j].key == k;
        }
      }
      forall i | 0 <= i < buckets ensures SlotOk(i) {
        assert old(SlotOk(i));
        if i != slot && ids[i].Full? {
          assert ids[i].key != ids[slot].key;
        }
      }
    }

    /**
     lcfgdrvmap_insert_list: the list is entered under its id, where it replaces
     any other. There always is space for it.
     */
    method InsertList(list: DerivationList, ghost refilling: bool, ghost ks: set<nat>) returns (change: Change)
      requires Valid()
      requires refilling ==> Refilling(ks) && list.id in ks
      modifies this, derivations
      ensures Valid() && used == old(used) && 10 * entries < 7 * buckets
      ensures derivations == old(derivations) || fresh(derivations)
      ensures change == if list.content == [] then Unchanged else if list.id in old(cache) then Replaced else Added
      ensures cache == if list.content == [] then old(cache) else old(cache)[list.id := list]
      ensures refilling ==> Refilling(ks) && buckets == old(buckets)
      decreases if refilling then 0 else 1, 2
    {
      if list.content == [] {
        return Unchanged;
      }
      FindDecides(list.id);
      var done, slot := FindSlot(list.id);
      if !done {
        return Failed;
      }
      var occupied := derivations[slot] != null;
      Place(slot, list);
      change := if occupied then Replaced else Added;
      if refilling {
        assert KeySet(ids) <= ks;
        FullCountIsKeyCount(ids);
        SubsetSize(KeySet(ids), ks);
      }
      if !occupied {
        ResizeTable(refilling);
      }
    }

    /** lcfgderivmap_resize: nothing the cache holds is lost or changed. */
    method ResizeTable(ghost refilling: bool)
      requires Shape() && (refilling ==> Loaded())
      modifies this, derivations
      ensures Valid() && cache == old(cache) && used == old(used)
      ensures derivations == old(derivations) || fresh(derivations)
      ensures if old(10 * entries < 7 * buckets) then derivations == old(derivations) && ids == old(ids)
              else buckets == 2 * old(entries) + 1
      decreases if refilling then 0 else 1, 1
    {
      var want := if 10 * entries >= 7 * buckets then 2 * entries + 1 else buckets;
      if want <= buckets {
        return;
      }
      Rebuild(want);
    }

    /** Slot j of a replaced table still holds what its cache had. */
    static ghost predicate Kept(cur: array<DerivationList?>, before: map<nat, DerivationList>, oldIds: seq<Slot<nat>>, j: int)
      requires 0 <= j < cur.Length == |oldIds|
      reads cur, before.Values
    {
      if cur[j] == null then oldIds[j] == Free
      else
        && oldIds[j].Full? && oldIds[j].key in before && before[oldIds[j].key] == cur[j]
        && cur[j].id == oldIds[j].key && cur[j].content != []
    }

    /** The lists of a replaced table's slots before i, and no others, are cached again. */
    ghost predicate Refilled(before: map<nat, DerivationList>, oldIds: seq<Slot<nat>>, i: nat)
      reads `cache
    {
      && (forall id | id in cache :: id in before && cache[id] == before[id])
      && (forall j | 0 <= j < i && j < |oldIds| && oldIds[j].Full? :: oldIds[j].key in cache)
    }

    /** Move the list of one slot of a replaced table into this one. */
    method RefillSlot(cur: array<DerivationList?>, i: nat, ghost before: map<nat, DerivationList>,
                      ghost oldIds: seq<Slot<nat>>, ghost ks: set<nat>)
      requires Valid() && Refilling(ks) && cur != derivations
      requires i < cur.Length == |oldIds| && Kept(cur, before, oldIds, i) && Refilled(before, oldIds, i)
      requires oldIds[i].Full? ==> oldIds[i].key in ks
      modifies this, derivations, cur
      ensures Valid() && Refilling(ks) && buckets == old(buckets) && used == old(used) && Refilled(before, oldIds, i + 1)
      ensures derivations == old(derivations) || fresh(derivations)
      ensures cur[..] == old(cur[..])[i := null]
      decreases 0, 3
    {
      var list := cur[i];
      if list != null && list.content != [] {
        var rc := InsertList(list, true, ks);
        assert rc != Failed;
      }
      cur[i] := null;
    }

    /** Move every list of a replaced table into this one. */
    method Refill(cur: array<DerivationList?>, n: nat, ghost before: map<nat, DerivationList>,
                  ghost oldIds: seq<Slot<nat>>, ghost ks: set<nat>)
      requires Valid() && Refilling(ks) && cur != derivations && ks == KeySet(oldIds)
      requires n == cur.Length == |oldIds| && Refilled(before, oldIds, 0)
      requires forall j | 0 <= j < n :: Kept(cur, before, oldIds, j)
      modifies this, derivations, cur
      ensures Valid() && buckets == old(buckets) && used == old(used) && Refilled(before, oldIds, n)
      ensures derivations == old(derivations) || fresh(derivations)
      decreases 0, 4
    {
      var i := 0;
      while i < n
        invariant i <= n && Valid() && Refilling(ks) && buckets == old(buckets) && used == old(used)
        invariant derivations == old(derivations) || fresh(derivations)
        invariant forall j | i <= j < n :: cur[j] == old(cur[j])
        invariant Refilled(before, oldIds, i)
      {
        label Before:
        assert old(Kept(cur, before, oldIds, i));
        RefillSlot(cur, i, before, oldIds, ks);
        forall j | i + 1 <= j < n ensures cur[j] == old(cur[j]) {
          assert cur[..][j] == old@Before(cur[..])[j];
        }
        i := i + 1;
      }
    }

    /** Start again with an empty table. */
    method Clear(want: nat)
      requires want > 0
      modifies `derivations, `buckets, `entries, `ids, `cache
      ensures Valid() && fresh(derivations) && cache == map[] && KeySet(ids) == {} && |ids| == want
    {
      derivations := new DerivationList?[want](i => null);
      buckets, entries := want, 0;
      ids, cache := seq(want, i => Free), map[];
      NoneFullCount(ids);
      assert KeySet(ids) == {};
    }

    method Rebuild(want: nat)
      requires Shape() && want == 2 * entries + 1
      modifies this, derivations
      ensures Valid() && buckets == want && cache == old(cache) && used == old(used)
      ensures fresh(derivations)
      decreases 1, 0
    {
      ghost var oldCache, oldIds, oldUsed := cache, ids, used;
      ghost var ks := KeySet(ids);
      KeySetAtMostFullCount(ids);
      var cur, n := derivations, buckets;
      forall j | 0 <= j < n ensures Kept(cur, oldCache, oldIds, j) {
        assert SlotOk(j);
      }
      Clear(want);
      Refill(cur, n, oldCache, oldIds, ks);
      forall id | id in oldCache ensures id in cache {
        var j :| 0 <= j < |oldIds| && oldIds[j].Full? && oldIds[j].key == id;
      }
    }

    /**
     lcfgderivmap_find_or_insert_string: the cached list for the fingerprint of
     the string, or what the parser makes of it, which is cached.
     */
    method FindOrInsertString(text: string) returns (result: DerivationList?)
      requires Valid()
      modifies this, derivations
      ensures Valid()
      ensures var id := fingerprint(text);
        if text == "" then result == null && cache == old(cache)
        else if id in old(cache) then result == old(cache)[id] && cache == old(cache)
        else if parse(text) == None || parse(text) == Some([]) then result == null && cache == old(cache)
        else
          && result != null && fresh(result) && parse(text) == Some(result.content)
          && cache == old(cache)[id := result]
      ensures used == if text == "" then old(used) else old(used) + {text}
      ensures old(Faithful()) ==> Faithful()
      ensures old(Faithful()) && result != null && (forall s | s in used && fingerprint(s) == fingerprint(text) :: s == text)
              ==> parse(text) == Some(result.content)
    {
      if text == "" {
        return null;
      }
      var id := fingerprint(text);
      used := used + {text};
      FindDecides(id);
      var done, slot := FindSlot(id);
      if !done {
        return null;
      }
      if derivations[slot] != null {
        return derivations[slot];
      }
      var parsed := parse(text);
      if parsed == None || parsed.value == [] {
        return null;
      }
      var list := new DerivationList(parsed.value);
      list.id := id;
      Place(slot, list);
      ResizeTable(false);
      result := list;
    }
  }
}

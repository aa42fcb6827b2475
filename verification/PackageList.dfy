/**
 The singly linked package list of packages/list.c: nodes, head, tail and size,
 changed in place by insertion, removal, merging and sorting.
 */
module PackageLists {
  import opened PackageOrder
  import opened Merging
  import opened Sorting

  class Node {
    var data: Package
    var next: Node?

    constructor (data: Package)
      ensures this.data == data && next == null
    {
      this.data, next := data, null;
    }
  }

  /** The comparison the sort uses. */
  function ComparePackages(p: Package, q: Package): int {
    Compare(p.data, q.data)
  }

  function NodeAt(nodes: seq<Node>, i: int): Node? {
    if 0 <= i < |nodes| then nodes[i] else null
  }

  /** nodes are distinct, hold pkgs, and but for the one at skip each links to the next. */
  ghost predicate ChainBut(repr: set<Node>, nodes: seq<Node>, pkgs: seq<Package>, skip: int)
    reads repr
  {
    && |nodes| == |pkgs|
    && (forall i | 0 <= i < |nodes| :: nodes[i] in repr)
    && (forall i, j | 0 <= i < j < |nodes| :: nodes[i] != nodes[j])
    && (forall i {:trigger nodes[i].next} | 0 <= i < |nodes| && i != skip :: nodes[i].next == NodeAt(nodes, i + 1))
    && (forall i {:trigger nodes[i].data} | 0 <= i < |nodes| :: nodes[i].data == pkgs[i])
  }

  ghost predicate Chain(repr: set<Node>, nodes: seq<Node>, pkgs: seq<Package>)
    reads repr
  {
    ChainBut(repr, nodes, pkgs, -1)
  }

  /** Relinking one node to a new one, which links to the rest, inserts it. */
  lemma ChainInsert(repr: set<Node>, ns: seq<Node>, ps: seq<Package>, at: nat, n: Node, p: Package)
    requires at <= |ns| && ChainBut(repr, ns, ps, at - 1)
    requires n !in repr && n.next == NodeAt(ns, at) && n.data == p
    requires at > 0 ==> ns[at - 1].next == n
    ensures Chain(repr + {n}, Insert(ns, at, n), Insert(ps, at, p))
  {
    var ms, qs := Insert(ns, at, n), Insert(ps, at, p);
    forall i | 0 <= i < |ms| ensures ms[i].next == NodeAt(ms, i + 1) && ms[i].data == qs[i] {
      if i < at {
        assert ms[i] == ns[i];
        assert ms[i + 1] == if i + 1 < at then ns[i + 1] else n;
      } else if i > at {
        assert ms[i] == ns[i - 1];
      }
    }
  }

  /** Relinking one node past the next one removes that. */
  lemma ChainRemove(repr: set<Node>, ns: seq<Node>, ps: seq<Package>, at: nat)
    requires at < |ns| && ChainBut(repr, ns, ps, at - 1)
    requires at > 0 ==> ns[at - 1].next == NodeAt(ns, at + 1)
    ensures Chain(repr, Without(ns, at), Without(ps, at))
  {
    var ms, qs := Without(ns, at), Without(ps, at);
    forall i | 0 <= i < |ms| ensures ms[i].next == NodeAt(ms, i + 1) && ms[i].data == qs[i] {
      if i < at {
        assert ms[i] == ns[i];
      } else {
        assert ms[i] == ns[i + 1];
      }
    }
  }

  class PackageList {
    var head: Node?
    var tail: Node?
    var size: nat
    const rules: Rules
    const key: PrimaryKey

    ghost var repr: set<Node>
    ghost var nodes: seq<Node>
    ghost var pkgs: seq<Package>

    /** head, tail and size agree with the chain of nodes, which holds pkgs. */
    ghost predicate Valid()
      reads this, repr
    {
      && size == |nodes|
      && head == NodeAt(nodes, 0)
      && tail == NodeAt(nodes, |nodes| - 1)
      && Chain(repr, nodes, pkgs)
      && AllValid(pkgs)
    }

    /** References to a package beyond those of the nodes that hold it here. */
    ghost function Surplus(q: Package): int
      reads this, q
    {
      q.refs - multiset(pkgs)[q]
    }

    /** No stored package counts fewer references than there are nodes that hold it. */
    ghost predicate Held()
      reads this, Members(pkgs)
    {
      forall q | q in Members(pkgs) :: Surplus(q) >= 0
    }

    /** So no stored package has been destroyed. */
    lemma StoredIsAlive(i: nat)
      requires Held() && i < |pkgs|
      ensures pkgs[i].refs > 0
    {
      assert pkgs[i] in Members(pkgs) && Surplus(pkgs[i]) >= 0;
    }

    constructor (rules: Rules, key: PrimaryKey)
      ensures Valid() && Held() && pkgs == [] && repr == {}
      ensures this.rules == rules && this.key == key
    {
      this.rules, this.key := rules, key;
      head, tail, size := null, null, 0;
      repr, nodes, pkgs := {}, [], [];
    }

    /** The pointer changes of an insertion that makes newNode the node at the given position. */
    method Link(node: Node?, newNode: Node, ghost at: nat)
      requires Valid() && newNode !in repr
      requires at <= |nodes| && node == NodeAt(nodes, at - 1)
      modifies `head, `tail, repr`next, newNode`next
      ensures ChainBut(repr, nodes, pkgs, at - 1)
      ensures newNode.next == NodeAt(nodes, at)
      ensures at > 0 ==> nodes[at - 1].next == newNode
      ensures head == if at == 0 then newNode else old(head)
      ensures tail == if at == |nodes| then newNode else old(tail)
    {
      if node == null {
        if size == 0 {
          tail := newNode;
        }
        newNode.next := head;
        head := newNode;
      } else {
        if node.next == null {
          tail := newNode;
        }
        newNode.next := node.next;
        node.next := newNode;
      }
    }

    /** Insert after the given node, or at the head; at is where that is. */
    method InsertNext(node: Node?, item: Package, ghost at: nat)
      requires Valid() && IsValid(item)
      requires at <= |nodes| && node == NodeAt(nodes, at - 1)
      modifies this, repr`next, item`refs
      ensures Valid()
      ensures fresh(repr - old(repr))
      ensures pkgs == Insert(old(pkgs), at, item)
      ensures item.refs == old(item.refs) + 1
    {
      ghost var ps := Insert(pkgs, at, item);
      assert AllValid(ps);
      item.refs := item.refs + 1;
      var newNode := new Node(item);
      Link(node, newNode, at);
      ghost var ns := Insert(nodes, at, newNode);
      ChainInsert(repr, nodes, pkgs, at, newNode, item);
      assert head == NodeAt(ns, 0) && tail == NodeAt(ns, |nodes|);
      size := size + 1;
      repr, nodes, pkgs := repr + {newNode}, ns, ps;
    }

    /** Remove the node after the given one, or the head; at is where that is. */
    method RemoveNext(node: Node?, ghost at: nat) returns (change: Change, item: Package?)
      requires Valid()
      requires at <= |nodes| && node == NodeAt(nodes, at - 1)
      modifies this, repr`next
      ensures Valid() && repr == old(repr)
      ensures change == if old(pkgs) == [] then Unchanged else if at == |old(pkgs)| then Failed else Removed
      ensures change != Removed ==> pkgs == old(pkgs)
      ensures change == Removed ==> item == old(pkgs[at]) && pkgs == old(Without(pkgs, at))
    {
      if size == 0 {
        return Unchanged, null;
      }
      var oldNode;
      if node == null {
        oldNode := head;
        head := head.next;
        if size == 1 {
          tail := null;
        }
      } else {
        if node.next == null {
          return Failed, null;
        }
        oldNode := node.next;
        node.next := node.next.next;
        if node.next == null {
          tail := node;
        }
      }
      size := size - 1;
      item := oldNode.data;
      ChainRemove(repr, nodes, pkgs, at);
      nodes := Without(nodes, at);
      pkgs := Without(pkgs, at);
      change := Removed;
    }

    /** The search of a merge: the first match, the node before it, and where that is. */
    method FindCurrent(p: Package) returns (prev: Node?, cur: Node?, ghost at: nat)
      requires Valid()
      ensures at == FirstMatch(key, pkgs, p)
      ensures cur == NodeAt(nodes, at)
      ensures cur != null ==> prev == NodeAt(nodes, at - 1)
    {
      prev, cur := null, null;
      var arch := if key.byArch then p.data.arch else WILDCARD;
      var node := head;
      at := 0;
      while node != null && cur == null
        invariant at <= |nodes|
        invariant node == NodeAt(nodes, at)
        invariant prev == NodeAt(nodes, at - 1)
        invariant forall j | 0 <= j < at :: !Matches(key, pkgs[j], p)
        invariant cur != null ==> cur == node && Matches(key, pkgs[at], p)
        decreases |nodes| - at, cur == null
      {
        var pkg := node.data;
        if !IsValid(pkg) {
          assert false;
        } else if Match(pkg.data, p.data.name, arch) && (!key.byContext || pkg.data.context == p.data.context) {
          cur := node;
        } else {
          prev, node, at := node, node.next, at + 1;
        }
      }
    }

    /** The cascade of merge rules, from duplicate structures down to priorities. */
    method ApplyRules(cur: Package?, p: Package) returns (accept: bool, removeOld: bool, appendNew: bool)
      ensures Decision(accept, removeOld, appendNew) == Decide(rules, if cur == null then None else Some(cur), p)
    {
      removeOld, appendNew, accept := false, false, false;
      if cur == p {
        accept := true;
        return;
      }
      if rules.usePrefix {
        var curPrefix := if cur != null then cur.data.prefix else PREFIX_NONE;
        var newPrefix := p.data.prefix;
        if newPrefix != PREFIX_NONE {
          if newPrefix == PREFIX_REMOVE {
            removeOld, accept := true, true;
          } else if newPrefix == PREFIX_ADD || newPrefix == PREFIX_PIN {
            removeOld, appendNew, accept := true, true, true;
          } else if newPrefix == PREFIX_ANY {
            if cur == null {
              appendNew := true;
            }
            accept := true;
          } else if newPrefix == PREFIX_UPDATE {
            if cur != null && curPrefix != PREFIX_PIN {
              removeOld, appendNew := true, true;
            }
            accept := true;
          } else if newPrefix == PREFIX_MIN {
            if cur == null || CompareVersions(p.data, cur.data) > 0 {
              removeOld, appendNew := true, true;
            }
            accept := true;
          }
          if removeOld && cur != null && curPrefix == PREFIX_PIN {
            removeOld, appendNew, accept := false, false, false;
          }
          return;
        }
      }
      if cur == null {
        appendNew, accept := true, true;
        return;
      }
      if rules.squash && Equals(cur.data, p.data) {
        removeOld, appendNew, accept := true, true, true;
        return;
      }
      if rules.keepAll {
        appendNew, accept := true, true;
        return;
      }
      if rules.replace {
        removeOld, appendNew, accept := true, true, true;
        return;
      }
      if rules.usePriority {
        if p.data.priority > cur.data.priority {
          removeOld, appendNew, accept := true, true, true;
        } else if p.data.priority < cur.data.priority {
          accept := true;
        }
      }
    }

    /** Drop the package after prev: unlink its node and give up the reference. */
    method DropNext(prev: Node?, ghost at: nat) returns (change: Change)
      requires Valid() && Held()
      requires at < |nodes| && prev == NodeAt(nodes, at - 1)
      modifies this, repr`next, pkgs[at]
      ensures Valid() && Held() && repr == old(repr)
      ensures change == Removed && pkgs == Without(old(pkgs), at)
      ensures forall q: Package | old(allocated(q)) :: Surplus(q) == old(Surplus(q))
    {
      ghost var before := pkgs;
      assert pkgs[at] in Members(pkgs) && multiset(pkgs)[pkgs[at]] >= 1;
      WithoutMultiset(pkgs, at);
      var oldPkg;
      change, oldPkg := RemoveNext(prev, at);
      oldPkg.refs := oldPkg.refs - 1;
      assert forall q | q in pkgs :: q in before;
    }

    /** lcfgpkglist_append. */
    method Append(p: Package)
      requires Valid() && Held() && IsValid(p)
      modifies this, repr`next, p`refs
      ensures Valid() && Held()
      ensures fresh(repr - old(repr))
      ensures pkgs == old(pkgs) + [p]
      ensures forall q: Package | old(allocated(q)) :: Surplus(q) == old(Surplus(q))
    {
      ghost var before := pkgs;
      InsertMultiset(pkgs, |pkgs|, p);
      InsertNext(tail, p, |nodes|);
      assert pkgs == before + [p];
      forall q | q in Members(pkgs) ensures Surplus(q) >= 0 {
        assert q in Members(before) || (q == p && multiset(before)[q] == 0);
      }
    }

    /** Carry out what the rules decided for p, whose key the package after prev has, if any. */
    method Apply(prev: Node?, curNode: Node?, p: Package, accept: bool, removeOld: bool, appendNew: bool, ghost at: nat)
      returns (change: Change)
      requires Valid() && Held() && IsValid(p)
      requires at <= |nodes| && curNode == NodeAt(nodes, at)
      requires curNode != null ==> prev == NodeAt(nodes, at - 1)
      requires removeOld && curNode != null ==> curNode.data != p
      modifies this, repr`next, p, if at < |nodes| then {pkgs[at]} else {}
      ensures Valid() && Held()
      ensures fresh(repr - old(repr))
      ensures Merged(change, pkgs) == Outcome(Decision(accept, removeOld, appendNew), old(pkgs), at, p)
      ensures forall q: Package | old(allocated(q)) :: Surplus(q) == old(Surplus(q))
    {
      change := Unchanged;
      if accept {
        if removeOld && curNode != null {
          assert pkgs[at] in pkgs && pkgs[at] == curNode.data;
          change := DropNext(prev, at);
        }
        if appendNew && change != Failed {
          Append(p);
          change := if change == Removed then Replaced else Added;
        }
      } else {
        change := Failed;
      }
    }

    /**
     Merge one package. The list becomes what Merge says, and the count of every
     package changes as the number of nodes that hold it does.
     */
    method MergePackage(p: Package) returns (change: Change)
      requires Valid() && Held()
      modifies this, repr`next, Touched(key, pkgs, p)
      ensures Valid() && Held()
      ensures fresh(repr - old(repr))
      ensures Merged(change, pkgs) == Merge(rules, key, old(pkgs), p)
      ensures forall q: Package | old(allocated(q)) :: Surplus(q) == old(Surplus(q))
    {
      if !IsValid(p) {
        return Failed;
      }
      var prev, curNode;
      ghost var at;
      prev, curNode, at := FindCurrent(p);
      var cur := if curNode == null then null else curNode.data;
      var accept, removeOld, appendNew := ApplyRules(cur, p);
      change := Apply(prev, curNode, p, accept, removeOld, appendNew, at);
    }

    /** lcfgpkglist_find_node. */
    method FindNode(name: string, arch: string) returns (result: Node?)
      requires Valid()
      ensures result == NodeAt(nodes, FirstNamed(pkgs, name, arch))
    {
      result := null;
      var node := head;
      ghost var at := 0;
      while node != null && result == null
        invariant at <= |nodes| && node == NodeAt(nodes, at)
        invariant forall j | 0 <= j < at :: !Match(pkgs[j].data, name, arch)
        invariant result == null || (at < |nodes| && result == nodes[at] && Match(pkgs[at].data, name, arch))
        decreases |nodes| - at, result == null
      {
        if IsValid(node.data) && Match(node.data.data, name, arch) {
          result := node;
        } else {
          node, at := node.next, at + 1;
        }
      }
    }

    /** lcfgpkglist_destroy: give up every reference. */
    method Destroy()
      requires Valid() && Held()
      modifies this, repr`next, Members(pkgs)
      ensures Valid() && pkgs == []
      ensures forall q: Package | old(allocated(q)) :: Surplus(q) == old(Surplus(q))
    {
      while size > 0
        invariant Valid() && Held() && repr == old(repr)
        invariant Members(pkgs) <= old(Members(pkgs))
        invariant forall q: Package | old(allocated(q)) :: Surplus(q) == old(Surplus(q))
        decreases size
      {
        assert pkgs[0] in Members(pkgs);
        var rc := DropNext(null, 0);
      }
    }

    /** Another list whose packages have references besides those of this list. */
    ghost predicate Beside(other: PackageList)
      reads this, other, other.repr, Members(other.pkgs)
    {
      && other != this && other.Valid() && other.repr !! repr
      && forall q | q in Members(other.pkgs) :: Surplus(q) >= 1
    }

    /** Merge a package of the other list, the next one of those that are left. */
    method MergeFrom(other: PackageList, p: Package, sofar: Change, ghost rest: seq<Package>, ghost outcome: Merged)
      returns (change: Change)
      requires Valid() && Held() && Beside(other) && p in other.pkgs
      requires rest != [] && rest[0] == p && sofar != Failed && OnTrack(rules, key, outcome, sofar, pkgs, rest)
      modifies this, repr`next, Members(pkgs) + Members(other.pkgs)
      ensures Valid() && Held() && Beside(other)
      ensures fresh(repr - old(repr))
      ensures Members(pkgs) <= old(Members(pkgs)) + Members(other.pkgs)
      ensures OnTrack(rules, key, outcome, change, pkgs, rest[1..])
      ensures forall q: Package | old(allocated(q)) :: Surplus(q) == old(Surplus(q))
    {
      assert p in Members(other.pkgs) && IsValid(p);
      OnTrackStep(rules, key, outcome, sofar, pkgs, rest);
      var rc := MergePackage(p);
      change := Combine(sofar, rc);
    }

    /** Merge the packages of another list in order, up to the first error. */
    method MergeList(other: PackageList) returns (change: Change)
      requires Valid() && Held() && Beside(other)
      modifies this, repr`next, Members(pkgs) + Members(other.pkgs)
      ensures Valid() && Held() && Beside(other)
      ensures fresh(repr - old(repr))
      ensures Merged(change, pkgs) == MergeAll(rules, key, old(pkgs), other.pkgs)
      ensures forall q: Package | old(allocated(q)) :: Surplus(q) == old(Surplus(q))
    {
      change := Unchanged;
      ghost var theirs := other.pkgs;
      ghost var all := Members(pkgs) + Members(theirs);
      ghost var outcome := MergeAll(rules, key, pkgs, theirs);
      ghost var i, rest := 0, theirs;
      var node := other.head;
      while node != null && change != Failed
        invariant Valid() && Held() && Beside(other)
        invariant fresh(repr - old(repr))
        invariant other.pkgs == theirs && Members(pkgs) <= all
        invariant i <= |theirs| && node == NodeAt(other.nodes, i)
        invariant rest == theirs[i..] && OnTrack(rules, key, outcome, change, pkgs, rest)
        invariant forall q: Package | old(allocated(q)) :: Surplus(q) == old(Surplus(q))
        decreases |other.nodes| - i
      {
        ghost var before := repr;
        assert node.data == theirs[i];
        var p := node.data;
        node, i := node.next, i + 1;
        change := MergeFrom(other, p, change, rest, outcome);
        rest := rest[1..];
        assert fresh(repr - before);
      }
      OnTrackEnd(rules, key, outcome, change, pkgs, rest);
    }

    /** Exchange the packages of the node at position i and the next one. */
    method SwapData(node: Node, ghost i: nat)
      requires Valid() && i + 1 < |nodes| && node == nodes[i]
      modifies this`pkgs, repr`data
      ensures Valid() && pkgs == Swapped(old(pkgs), i)
    {
      var pkg := node.data;
      node.data := node.next.data;
      node.next.data := pkg;
      pkgs := Swapped(pkgs, i);
    }

    /** Compare the package at position i with the next one; exchange them if they are out of order. */
    method SortStep(node: Node, sofar: bool, ghost els: set<Package>, ghost start: seq<Package>, ghost i: nat)
      returns (swapped: bool)
      requires Valid() && i + 1 < |nodes| && node == nodes[i]
      requires SortProgress(ComparePackages, els, start, pkgs, sofar, i)
      modifies this`pkgs, repr`data
      ensures Valid() && |pkgs| == old(|pkgs|)
      ensures SortProgress(ComparePackages, els, start, pkgs, swapped, i + 1)
    {
      swapped := sofar;
      if ComparePackages(node.data, node.next.data) > 0 {
        PackagesOrdered(els);
        SwapEffect(ComparePackages, els, start, pkgs, sofar, i);
        SwapData(node, i);
        swapped := true;
      } else {
        KeepEffect(ComparePackages, els, start, pkgs, sofar, i);
      }
    }

    /** One pass of the bubble sort over the list. */
    method SortPass(ghost els: set<Package>) returns (swapped: bool)
      requires Valid() && |pkgs| >= 2
      requires Over(pkgs, els)
      modifies this`pkgs, repr`data
      ensures Valid() && |pkgs| == old(|pkgs|)
      ensures SortProgress(ComparePackages, els, old(pkgs), pkgs, swapped, |pkgs| - 1)
    {
      swapped := false;
      var node := head;
      ghost var i := 0;
      ghost var start := pkgs;
      SortStarts(ComparePackages, els, start);
      while node.next != null
        invariant Valid() && |pkgs| == |start|
        invariant i < |nodes| && node == nodes[i]
        invariant SortProgress(ComparePackages, els, start, pkgs, swapped, i)
        decreases |nodes| - i
      {
        swapped := SortStep(node, swapped, els, start, i);
        node, i := node.next, i + 1;
      }
    }

    /** The bubble sort: passes until one makes no exchange. */
    method Sort()
      requires Valid()
      modifies this`pkgs, repr`data
      ensures Valid()
      ensures SortedBy(ComparePackages, pkgs)
      ensures StablePermutation(ComparePackages, old(pkgs), pkgs)
    {
      if size < 2 {
        return;
      }
      ghost var els := set p | p in pkgs;
      var swapped := true;
      while swapped
        invariant Valid() && |pkgs| >= 2
        invariant Over(pkgs, els) && StablePermutation(ComparePackages, old(pkgs), pkgs)
        invariant !swapped ==> NeighboursInOrder(ComparePackages, pkgs, |pkgs| - 1)
        decreases Inversions(ComparePackages, pkgs), swapped
      {
        ghost var before := pkgs;
        swapped := SortPass(els);
        StableTransitive(ComparePackages, old(pkgs), before, pkgs);
      }
      PackagesOrdered(els);
      NeighboursSuffice(ComparePackages, els, pkgs);
    }
  }

  /** The index of the first package a lookup by name and architecture accepts, or |s|. */
  function FirstNamed(s: seq<Package>, name: string, arch: string): (i: nat)
    ensures i <= |s|
    ensures i < |s| ==> Match(s[i].data, name, arch)
    ensures forall j | 0 <= j < i :: !Match(s[j].data, name, arch)
  {
    if s == [] || Match(s[0].data, name, arch) then 0 else 1 + FirstNamed(s[1..], name, arch)
  }

  lemma PackagesOrdered(els: set<Package>)
    ensures OrdersTotally(ComparePackages, els)
  {
    CompareTotalPreorder();
  }
}

/**
 * check_well_formed and is_well_formed: phase one registers every node owned
 * under the root, phase two checks completeness against that registry. The
 * declarative meaning proved here: ownership under the root forms a tree
 * (each node owned exactly once, every owned node reachable), every required
 * edge is populated, and every link names a node of that tree.
 */
module Validator {
  import opened Base
  import opened Tree
  import opened Registry
  import opened Reachability
  import opened Completeness

  /**
   * o lists the nodes owned under a node whose children are cs, each once:
   * every one is reached from cs through owning edges, and together cs and
   * the children of the nodes of o hold every node of o exactly once.
   */
  ghost predicate OwnershipTree(h: Heap, cs: seq<Id>, o: seq<Id>) {
    && AllIn(h, o)
    && Distinct(o)
    && RootedFrom(h, cs, o, 0)
    && multiset(cs + Flat(h, o)) == multiset(o)
  }

  /** Ownership below root is a tree: no node is owned twice or owns an ancestor. */
  ghost predicate IsOwnershipTree(h: Heap, root: Id)
    requires root in h
  {
    exists o :: OwnershipTree(h, Children(h[root]), o)
  }

  /**
   * The tree below root is well-formed: ownership is a tree, and the root
   * and every node owned below it are complete with respect to those nodes.
   */
  ghost predicate WellFormed(h: Heap, root: Id)
    requires root in h
  {
    exists o :: OwnershipTree(h, Children(h[root]), o)
      && NodeComplete(h, Seen(o), root)
      && forall k :: 0 <= k < |o| ==> NodeComplete(h, Seen(o), o[k])
  }

  /** A traversal that completes from the root's children lists an ownership tree. */
  lemma WalkIsTree(h: Heap, cs: seq<Id>)
    requires Closed(h) && AllIn(h, cs) && WalkIds(h, cs, []).dup.None?
    ensures OwnershipTree(h, cs, WalkIds(h, cs, []).order)
    ensures Preorder(h, WalkIds(h, cs, []).order, 0)
  {
    var o := WalkIds(h, cs, []).order;
    assert o[0..] == o;
    WalkIdsDistinct(h, cs, []);
    WalkIdsRooted(h, cs, []);
    WalkIdsCount(h, cs, []);
    WalkIdsPreorder(h, cs, []);
  }

  /** An ownership tree holds the children it starts from and the children of its own nodes. */
  lemma TreeClosed(h: Heap, cs: seq<Id>, o: seq<Id>)
    requires OwnershipTree(h, cs, o)
    ensures forall x :: x in cs ==> x in o
    ensures forall k, c :: 0 <= k < |o| && c in Children(h[o[k]]) ==> c in o
  {
    forall x | x in cs ensures x in o {
      assert x in multiset(cs + Flat(h, o));
    }
    forall k, c | 0 <= k < |o| && c in Children(h[o[k]]) ensures c in o {
      FlatContains(h, o, k, c);
      assert c in multiset(cs + Flat(h, o));
    }
  }

  /** The first n nodes of a rooted sequence lie in any set closed under ownership that holds cs. */
  lemma {:induction false} RootedWithin(h: Heap, cs: seq<Id>, o: seq<Id>, s: set<Id>, n: nat)
    requires RootedFrom(h, cs, o, 0) && n <= |o|
    requires forall x :: x in cs ==> x in s
    requires forall x, c :: x in s && x in h && c in Children(h[x]) ==> c in s
    ensures forall k :: 0 <= k < n ==> o[k] in s
  {
    if n > 0 {
      RootedWithin(h, cs, o, s, n - 1);
      var k := n - 1;
      if o[k] !in cs {
        var j :| 0 <= j < k && o[j] in h && o[k] in Children(h[o[j]]);
        assert o[j] in s;
      }
    }
  }

  /** A rooted sequence lies within every ownership tree over the same children. */
  lemma RootedInTree(h: Heap, cs: seq<Id>, w: seq<Id>, o: seq<Id>)
    requires RootedFrom(h, cs, w, 0) && OwnershipTree(h, cs, o)
    ensures Seen(w) <= Seen(o)
  {
    TreeClosed(h, cs, o);
    forall x, c | x in Seen(o) && x in h && c in Children(h[x]) ensures c in Seen(o) {
      var k :| 0 <= k < |o| && o[k] == x;
    }
    RootedWithin(h, cs, w, Seen(o), |w|);
  }

  /** Two ownership trees over the same children hold the same nodes. */
  lemma TreeUnique(h: Heap, cs: seq<Id>, o: seq<Id>, o': seq<Id>)
    requires OwnershipTree(h, cs, o) && OwnershipTree(h, cs, o')
    ensures Seen(o) == Seen(o')
  {
    RootedInTree(h, cs, o, o');
    RootedInTree(h, cs, o', o);
  }

  /**
   * If any ownership tree exists, the traversal finds no duplicate: the walk
   * registers only nodes of the tree, each once, so it cannot meet a node
   * twice among the children it visits.
   */
  lemma TreeMeansNoDuplicate(h: Heap, cs: seq<Id>, o: seq<Id>)
    requires Closed(h) && AllIn(h, cs) && OwnershipTree(h, cs, o)
    ensures WalkIds(h, cs, []).dup.None?
  {
    var w := WalkIds(h, cs, []).order;
    assert w[0..] == w;
    WalkIdsDistinct(h, cs, []);
    WalkIdsRooted(h, cs, []);
    WalkIdsCount(h, cs, []);
    RootedInTree(h, cs, w, o);
    DistinctSub(w, o);
    FlatMono(h, w, o);
    DistinctCount(o);
    assert multiset(cs + Flat(h, w)) <= multiset(cs + Flat(h, o));
  }

  /** Phase one raises DuplicateNode exactly when ownership below the root is not a tree. */
  lemma DuplicateIffNotTree(h: Heap, root: Id)
    requires Closed(h) && root in h
    ensures WalkIds(h, Children(h[root]), []).dup.None? <==> IsOwnershipTree(h, root)
  {
    var cs := Children(h[root]);
    assert AllIn(h, cs);
    if WalkIds(h, cs, []).dup.None? {
      WalkIsTree(h, cs);
    }
    forall o | OwnershipTree(h, cs, o) ensures WalkIds(h, cs, []).dup.None? {
      TreeMeansNoDuplicate(h, cs, o);
    }
  }

  /** The phase-one sequence numbers, reversed, rank every registered node above the nodes it owns. */
  ghost function RankOf(o: seq<Id>): (rank: map<Id, nat>)
    requires Distinct(o)
    ensures forall k :: 0 <= k < |o| ==> o[k] in rank && rank[o[k]] == |o| - k
    ensures forall x :: x in rank ==> x in o
  {
    NumberingOfDistinct(o);
    map x | x in Numbering(o) :: |o| - Numbering(o)[x]
  }

  lemma RankedByWalk(h: Heap, o: seq<Id>)
    requires AllIn(h, o) && Distinct(o) && Preorder(h, o, 0)
    ensures Ranked(h, RankOf(o))
  {
    var rank := RankOf(o);
    forall x | x in rank ensures x in h && Below(h, rank, Children(h[x]), rank[x]) {
      var k :| 0 <= k < |o| && o[k] == x;
      forall c | c in Children(h[x]) ensures c in h && c in rank && rank[c] < rank[x] {
        assert c in o[k + 1..];
        var m :| k + 1 <= m < |o| && o[m] == c;
      }
    }
  }

  /** When check_complete passes on the children cs, every node rooted in cs is complete. */
  lemma PassReachesAll(h: Heap, reg: set<Id>, rank: map<Id, nat>, cs: seq<Id>, o: seq<Id>)
    requires Ranked(h, rank) && RootedFrom(h, cs, o, 0)
    requires forall k :: 0 <= k < |o| ==> o[k] in rank
    requires forall c :: c in cs ==> c in rank && CompleteNode(h, reg, rank, c, rank[c]).Pass?
    ensures forall k :: 0 <= k < |o| ==> o[k] in h && NodeComplete(h, reg, o[k])
  {
    // the nodes on which check_complete passes are closed under ownership
    var passing := set x | x in rank && CompleteNode(h, reg, rank, x, rank[x]).Pass?;
    forall x, c | x in passing && x in h && c in Children(h[x]) ensures c in passing {
      CompleteNodePass(h, reg, rank, x, rank[x]);
    }
    RootedWithin(h, cs, o, passing, |o|);
    forall k | 0 <= k < |o| ensures o[k] in h && NodeComplete(h, reg, o[k]) {
      assert o[k] in passing;
      CompleteNodePass(h, reg, rank, o[k], rank[o[k]]);
    }
  }

  /**
   * Phase two run from the root over a tree found by phase one passes exactly
   * when the root and every registered node are complete.
   */
  lemma CompleteIffAllComplete(h: Heap, root: Id, o: seq<Id>)
    requires root in h && OwnershipTree(h, Children(h[root]), o) && Preorder(h, o, 0)
    ensures Ranked(h, RankOf(o)) && Below(h, RankOf(o), Children(h[root]), |o| + 1)
    ensures CompleteNode(h, Seen(o), RankOf(o), root, |o| + 1).Pass? <==>
      NodeComplete(h, Seen(o), root) && forall k :: 0 <= k < |o| ==> NodeComplete(h, Seen(o), o[k])
  {
    var cs, rank, reg := Children(h[root]), RankOf(o), Seen(o);
    RankedByWalk(h, o);
    TreeClosed(h, cs, o);
    CompleteNodePass(h, reg, rank, root, |o| + 1);
    if CompleteNode(h, reg, rank, root, |o| + 1).Pass? {
      PassReachesAll(h, reg, rank, cs, o);
    }
    if NodeComplete(h, reg, root) && forall k :: 0 <= k < |o| ==> NodeComplete(h, reg, o[k]) {
      forall c | c in cs ensures CompleteNode(h, reg, rank, c, rank[c]).Pass? {
        CompleteWhenAllComplete(h, reg, rank, c);
      }
    }
  }

  /** Completeness carries over between two listings of the same nodes. */
  lemma CompleteTransfer(h: Heap, o: seq<Id>, o': seq<Id>)
    requires AllIn(h, o) && AllIn(h, o') && Seen(o) == Seen(o')
    requires forall m :: 0 <= m < |o'| ==> NodeComplete(h, Seen(o'), o'[m])
    ensures forall k :: 0 <= k < |o| ==> NodeComplete(h, Seen(o), o[k])
  {
    forall k | 0 <= k < |o| ensures NodeComplete(h, Seen(o), o[k]) {
      assert o[k] in Seen(o');
      var m :| 0 <= m < |o'| && o'[m] == o[k];
    }
  }

  /** Over a tree found by phase one, well-formedness is completeness of the root and of every registered node. */
  lemma WellFormedByWalk(h: Heap, root: Id, o: seq<Id>)
    requires root in h && OwnershipTree(h, Children(h[root]), o)
    ensures WellFormed(h, root) <==>
      NodeComplete(h, Seen(o), root) && forall k :: 0 <= k < |o| ==> NodeComplete(h, Seen(o), o[k])
  {
    var cs := Children(h[root]);
    if WellFormed(h, root) {
      var o' :| OwnershipTree(h, cs, o') && NodeComplete(h, Seen(o'), root)
        && (forall k :: 0 <= k < |o'| ==> NodeComplete(h, Seen(o'), o'[k]));
      TreeUnique(h, cs, o, o');
      CompleteTransfer(h, o, o');
    }
  }

  /** The registration order phase one produces below the root. */
  ghost function TreeOrder(h: Heap, root: Id): seq<Id>
    requires Closed(h) && root in h
  {
    assert AllIn(h, Children(h[root]));
    WalkIds(h, Children(h[root]), []).order
  }

  /** Over a tree, that order lists the tree, each node before what it owns. */
  lemma TreeOrderIsTree(h: Heap, root: Id)
    requires Closed(h) && root in h && IsOwnershipTree(h, root)
    ensures OwnershipTree(h, Children(h[root]), TreeOrder(h, root)) && Preorder(h, TreeOrder(h, root), 0)
  {
    DuplicateIffNotTree(h, root);
    WalkIsTree(h, Children(h[root]));
  }

  /** Over a tree, ranking by the phase-one order is a termination witness for phase two. */
  lemma TreeOrderRanks(h: Heap, root: Id)
    requires Closed(h) && root in h && IsOwnershipTree(h, root)
    ensures Distinct(TreeOrder(h, root))
    ensures Ranked(h, RankOf(TreeOrder(h, root)))
    ensures Below(h, RankOf(TreeOrder(h, root)), Children(h[root]), |TreeOrder(h, root)| + 1)
  {
    TreeOrderIsTree(h, root);
    CompleteIffAllComplete(h, root, TreeOrder(h, root));
  }

  /**
   * The exception phase two raises over a tree found by phase one: completeness
   * checked from the root against the nodes phase one registered.
   */
  ghost function PhaseTwo(h: Heap, root: Id): (r: Outcome)
    requires Closed(h) && root in h && IsOwnershipTree(h, root)
    ensures Incomplete(r)
  {
    var o := TreeOrder(h, root);
    TreeOrderRanks(h, root);
    CompleteNode(h, Seen(o), RankOf(o), root, |o| + 1)
  }

  /** Phase two passes exactly when the tree is well-formed. */
  lemma PhaseTwoDecides(h: Heap, root: Id)
    requires Closed(h) && root in h && IsOwnershipTree(h, root)
    ensures PhaseTwo(h, root).Pass? <==> WellFormed(h, root)
  {
    PhaseTwoIs(h, root);
    var o := TreeOrder(h, root);
    TreeOrderIsTree(h, root);
    CompleteIffAllComplete(h, root, o);
    WellFormedByWalk(h, root, o);
  }

  /** PhaseTwo is the completeness check of the root, ranked by the phase-one order. */
  lemma PhaseTwoIs(h: Heap, root: Id)
    requires Closed(h) && root in h && IsOwnershipTree(h, root)
    ensures var o := TreeOrder(h, root);
      && Distinct(o) && Ranked(h, RankOf(o)) && Below(h, RankOf(o), Children(h[root]), |o| + 1)
      && PhaseTwo(h, root) == CompleteNode(h, Seen(o), RankOf(o), root, |o| + 1)
  {
    TreeOrderRanks(h, root);
  }

  /** The same, with the registry, the ranking and the bound handed out. */
  lemma PhaseTwoUnfold(h: Heap, root: Id) returns (reg: set<Id>, rank: map<Id, nat>, bound: nat)
    requires Closed(h) && root in h && IsOwnershipTree(h, root)
    ensures reg == Seen(TreeOrder(h, root))
    ensures Ranked(h, rank) && Below(h, rank, Children(h[root]), bound)
    ensures PhaseTwo(h, root) == CompleteNode(h, reg, rank, root, bound)
  {
    PhaseTwoIs(h, root);
    reg, rank, bound := Seen(TreeOrder(h, root)), RankOf(TreeOrder(h, root)), |TreeOrder(h, root)| + 1;
  }

  /**
   * check_well_formed on a root node: registers everything owned below the
   * root, then checks completeness against that registry. The root itself is
   * not registered.
   */
  method CheckWellFormed(h: Heap, root: Id) returns (r: Outcome)
    requires Closed(h) && root in h
    ensures r.Fail? ==> r.error.NotWellFormed?
    ensures (r.Fail? && r.error.why.Duplicate?) <==> !IsOwnershipTree(h, root)
    ensures r.Pass? <==> WellFormed(h, root)
    ensures IsOwnershipTree(h, root) ==> r == PhaseTwo(h, root)
  {
    var pm := new PointerMap();
    r := FindReachableNode(h, root, pm);
    DuplicateIffNotTree(h, root);
    var cs := Children(h[root]);
    if r.Fail? {
      return;
    }
    ghost var o := pm.order;
    WalkIsTree(h, cs);
    CompleteIffAllComplete(h, root, o);
    WellFormedByWalk(h, root, o);
    r := CheckCompleteNode(h, root, pm, RankOf(o), |o| + 1);
  }

  /** is_well_formed: check_well_formed with its NotWellFormed exception turned into false. */
  method IsWellFormed(h: Heap, root: Id) returns (ok: bool)
    requires Closed(h) && root in h
    ensures ok <==> WellFormed(h, root)
  {
    var r := CheckWellFormed(h, root);
    ok := r.Pass?;
  }
}

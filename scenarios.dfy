/**
 * Small trees on which well-formedness is decided outright: a root owning a
 * Many of two nodes, one of which links to the other, and the ways of
 * breaking it (clearing the collection, a dangling link, shared ownership,
 * a link back to the root).
 */
module Scenarios {
  import opened Base
  import opened Tree
  import opened Reachability
  import opened Completeness
  import opened Validator

  const Root: Id := 1
  const A: Id := 2
  const B: Id := 3
  const C: Id := 4

  /** A node with one Link field to target. */
  function Linker(target: Id): Node {
    Node(1, [LinkEdge(Some(target))])
  }

  /** A node without edges. */
  function Leaf(): Node {
    Node(2, [])
  }

  /** The root owns Many [A, B]; A links to B; C is alive but owned by nobody under the root. */
  function Sample(): Heap {
    map[Root := Node(0, [ManyEdge([Some(A), Some(B)])]), A := Linker(B), B := Leaf(), C := Leaf()]
  }

  /** A node with a single field owns what that field owns. */
  lemma SingleField(t: Tag, e: Edge)
    ensures Children(Node(t, [e])) == Owned(e)
  {
    assert [e][1..] == [];
    assert OwnedFields([e]) == Owned(e) + [];
  }

  lemma FilledPair(x: Id, y: Id)
    ensures Filled([Some(x), Some(y)]) == [x, y]
  {
    assert [Some(x), Some(y)][1..] == [Some(y)] && [Some(y)][1..] == [];
  }

  /** Two live nodes that own nothing contribute no children. */
  lemma FlatPair(h: Heap, x: Id, y: Id)
    requires x in h && y in h && Children(h[x]) == [] && Children(h[y]) == []
    ensures Flat(h, [x, y]) == []
  {
    assert [x, y][1..] == [y] && [y][1..] == [];
    assert Flat(h, [y]) == Kids(h, y) + [];
  }

  lemma SampleShape()
    ensures Closed(Sample())
    ensures Children(Sample()[Root]) == [A, B]
    ensures Children(Sample()[A]) == [] && Children(Sample()[B]) == [] && Children(Sample()[C]) == []
  {
    FilledPair(A, B);
    SingleField(0, ManyEdge([Some(A), Some(B)]));
    SingleField(1, LinkEdge(Some(B)));
  }

  /** Two distinct live nodes that own nothing form an ownership tree below an owner of both. */
  lemma PairTree(h: Heap, x: Id, y: Id)
    requires x in h && y in h && x != y && Children(h[x]) == [] && Children(h[y]) == []
    ensures OwnershipTree(h, [x, y], [x, y])
  {
    FlatPair(h, x, y);
    assert RootedFrom(h, [x, y], [x, y], 0);
  }

  /** ... and every ownership tree below such an owner registers exactly those two. */
  lemma PairOnly(h: Heap, x: Id, y: Id, o: seq<Id>)
    requires x in h && y in h && x != y && Children(h[x]) == [] && Children(h[y]) == []
    requires OwnershipTree(h, [x, y], o)
    ensures Seen(o) == {x, y}
  {
    PairTree(h, x, y);
    TreeUnique(h, [x, y], o, [x, y]);
    assert Seen([x, y]) == {x, y};
  }

  /** The shape of a root owning Many [x, y] where x links to y and y has no edges. */
  ghost predicate PairShape(h: Heap, r: Id, x: Id, y: Id) {
    && r in h && x in h && y in h && x != y
    && h[r].fields == [ManyEdge([Some(x), Some(y)])]
    && h[x].fields == [LinkEdge(Some(y))] && h[y].fields == []
  }

  lemma PairChildren(h: Heap, r: Id, x: Id, y: Id)
    requires PairShape(h, r, x, y)
    ensures Children(h[r]) == [x, y] && Children(h[x]) == [] && Children(h[y]) == []
  {
    FilledPair(x, y);
    SingleField(h[r].tag, h[r].fields[0]);
    SingleField(h[x].tag, h[x].fields[0]);
    assert h[r] == Node(h[r].tag, [h[r].fields[0]]) && h[x] == Node(h[x].tag, [h[x].fields[0]]);
  }

  /** With x and y registered, the root, x and y are each complete. */
  lemma PairComplete(h: Heap, r: Id, x: Id, y: Id, reg: set<Id>)
    requires PairShape(h, r, x, y) && x in reg && y in reg
    ensures NodeComplete(h, reg, r) && NodeComplete(h, reg, x) && NodeComplete(h, reg, y)
  {
    assert EdgeComplete(h, reg, h[r].fields[0]);
    assert EdgeComplete(h, reg, h[x].fields[0]);
  }

  /** Such a root is well-formed: x and y are the tree, and the link names a registered node. */
  lemma PairWellFormed(h: Heap, r: Id, x: Id, y: Id)
    requires PairShape(h, r, x, y)
    ensures WellFormed(h, r)
  {
    PairChildren(h, r, x, y);
    var o := [x, y];
    PairTree(h, x, y);
    assert o[0] == x && o[1] == y;
    PairComplete(h, r, x, y, Seen(o));
    assert forall k :: 0 <= k < |o| ==> NodeComplete(h, Seen(o), o[k]);
  }

  /** In the sample, A and B form the ownership tree below the root, and it is well-formed. */
  lemma SampleWellFormed()
    ensures Closed(Sample()) && WellFormed(Sample(), Root)
  {
    SampleShape();
    assert PairShape(Sample(), Root, A, B);
    PairWellFormed(Sample(), Root, A, B);
  }

  /** A node whose only field is an empty Many raises EmptyMany. */
  lemma EmptyManyFails(h: Heap, reg: set<Id>, rank: map<Id, nat>, r: Id, bound: nat)
    requires Ranked(h, rank) && r in h && h[r].fields == [ManyEdge([])] && Below(h, rank, Children(h[r]), bound)
    ensures CompleteNode(h, reg, rank, r, bound) == Fail(NotWellFormed(EmptyMany))
  {
    assert CompleteEdge(h, reg, rank, h[r].fields[0], bound) == Fail(NotWellFormed(EmptyMany));
  }

  /** A node whose only field is a Link to a live, unregistered t raises Unknown(t). */
  lemma LinkNodeFails(h: Heap, reg: set<Id>, rank: map<Id, nat>, x: Id, t: Id, bound: nat)
    requires Ranked(h, rank) && x in h && h[x].fields == [LinkEdge(Some(t))] && t in h && t !in reg
    requires Below(h, rank, Children(h[x]), bound)
    ensures CompleteNode(h, reg, rank, x, bound) == Fail(NotWellFormed(Unknown(t)))
  {
    assert CompleteEdge(h, reg, rank, h[x].fields[0], bound) == Fail(NotWellFormed(Unknown(t)));
  }

  /** A root owning Many [x, y] whose x links to a live, unregistered t raises Unknown(t) while checking x. */
  lemma PairLinkFails(h: Heap, reg: set<Id>, rank: map<Id, nat>, r: Id, x: Id, y: Id, t: Id, bound: nat)
    requires Ranked(h, rank) && r in h && x in h && h[r].fields == [ManyEdge([Some(x), Some(y)])]
    requires h[x].fields == [LinkEdge(Some(t))] && t in h && t !in reg
    requires Below(h, rank, Children(h[r]), bound)
    ensures CompleteNode(h, reg, rank, r, bound) == Fail(NotWellFormed(Unknown(t)))
  {
    var e := h[r].fields[0];
    FilledPair(x, y);
    SingleField(h[r].tag, e);
    assert h[r] == Node(h[r].tag, [e]);
    assert x in Children(h[r]);
    var fail := Fail(NotWellFormed(Unknown(t)));
    LinkNodeFails(h, reg, rank, x, t, rank[x]);
    assert CompleteOne(h, reg, rank, Some(x), bound) == fail;
    assert CompleteElems(h, reg, rank, [Some(x), Some(y)], bound) == fail;
    assert CompleteEdge(h, reg, rank, e, bound) == fail;
  }

  /** A root whose only field is an empty Many owns nothing, and phase two raises EmptyMany. */
  lemma ClearedRaises(h: Heap, r: Id)
    requires Closed(h) && r in h && h[r].fields == [ManyEdge([])]
    ensures IsOwnershipTree(h, r) && PhaseTwo(h, r) == Fail(NotWellFormed(EmptyMany)) && !WellFormed(h, r)
  {
    SingleField(h[r].tag, h[r].fields[0]);
    assert h[r] == Node(h[r].tag, [h[r].fields[0]]);
    assert OwnershipTree(h, Children(h[r]), []);
    var reg, rank, bound := PhaseTwoUnfold(h, r);
    EmptyManyFails(h, reg, rank, r, bound);
    PhaseTwoDecides(h, r);
  }

  /** The children of a root owning Many [x, y], where x has one Link field and y has no edges. */
  lemma LinkPairChildren(h: Heap, r: Id, x: Id, y: Id, t: Id)
    requires r in h && x in h && y in h
    requires h[r].fields == [ManyEdge([Some(x), Some(y)])] && h[x].fields == [LinkEdge(Some(t))] && h[y].fields == []
    ensures Children(h[r]) == [x, y] && Children(h[x]) == [] && Children(h[y]) == []
  {
    FilledPair(x, y);
    SingleField(h[r].tag, h[r].fields[0]);
    SingleField(h[x].tag, h[x].fields[0]);
    assert h[r] == Node(h[r].tag, [h[r].fields[0]]) && h[x] == Node(h[x].tag, [h[x].fields[0]]);
  }

  /** Below a root owning exactly x and y, which own nothing, phase one registers x and y and no t besides. */
  lemma PairRegistered(h: Heap, r: Id, x: Id, y: Id, t: Id)
    requires Closed(h) && r in h && x in h && y in h && x != y && t != x && t != y
    requires Children(h[r]) == [x, y] && Children(h[x]) == [] && Children(h[y]) == []
    ensures IsOwnershipTree(h, r) && Seen(TreeOrder(h, r)) == {x, y} && t !in Seen(TreeOrder(h, r))
  {
    PairTree(h, x, y);
    assert OwnershipTree(h, Children(h[r]), [x, y]);
    assert IsOwnershipTree(h, r);
    TreeOrderIsTree(h, r);
    var o := TreeOrder(h, r);
    assert OwnershipTree(h, [x, y], o);
    PairOnly(h, x, y, o);
    assert t !in {x, y};
  }

  /**
   * A root owning Many [x, y], where x links to a live t other than x and y
   * and neither owns anything: ownership is a tree, and phase two raises
   * Unknown(t) while checking x.
   */
  lemma PairLinkRaises(h: Heap, r: Id, x: Id, y: Id, t: Id)
    requires Closed(h) && r in h && x in h && y in h && t in h && x != y && t != x && t != y
    requires h[r].fields == [ManyEdge([Some(x), Some(y)])] && h[x].fields == [LinkEdge(Some(t))] && h[y].fields == []
    ensures IsOwnershipTree(h, r) && PhaseTwo(h, r) == Fail(NotWellFormed(Unknown(t))) && !WellFormed(h, r)
  {
    LinkPairChildren(h, r, x, y, t);
    PairRegistered(h, r, x, y, t);
    var reg, rank, bound := PhaseTwoUnfold(h, r);
    PairLinkFails(h, reg, rank, r, x, y, t, bound);
    PhaseTwoDecides(h, r);
  }

  /** Clearing the root's Many leaves a required collection empty: not well-formed, yet no duplicate. */
  lemma ClearedManyRejected()
    ensures var h := Sample()[Root := Node(0, [ManyEdge([])])];
      Closed(h) && IsOwnershipTree(h, Root) && !WellFormed(h, Root)
      && PhaseTwo(h, Root) == Fail(NotWellFormed(EmptyMany))
  {
    var h := Sample()[Root := Node(0, [ManyEdge([])])];
    SampleShape();
    SingleField(0, ManyEdge([]));
    assert Closed(h);
    ClearedRaises(h, Root);
  }

  /** Redirecting A's link to C, which nothing under the root owns, leaves a dangling link. */
  lemma DanglingLinkRejected()
    ensures var h := Sample()[A := Linker(C)];
      Closed(h) && IsOwnershipTree(h, Root) && !WellFormed(h, Root)
      && PhaseTwo(h, Root) == Fail(NotWellFormed(Unknown(C)))
  {
    var h := Sample()[A := Linker(C)];
    SampleShape();
    SingleField(1, LinkEdge(Some(C)));
    assert Closed(h);
    PairLinkRaises(h, Root, A, B, C);
  }

  /** Putting A into the root's Many twice shares its ownership: phase one finds a duplicate. */
  lemma SharedOwnershipRejected()
    ensures var h := Sample()[Root := Node(0, [ManyEdge([Some(A), Some(A)])])];
      Closed(h) && !IsOwnershipTree(h, Root)
  {
    var h := Sample()[Root := Node(0, [ManyEdge([Some(A), Some(A)])])];
    SampleShape();
    FilledPair(A, A);
    SingleField(0, ManyEdge([Some(A), Some(A)]));
    assert Children(h[Root]) == [A, A];
    assert Closed(h);
    forall o ensures !OwnershipTree(h, [A, A], o) {
      if Distinct(o) {
        DistinctCount(o);
        assert multiset([A, A] + Flat(h, o))[A] >= 2;
      }
    }
  }

  /**
   * A link from A back to the root is dangling: the root itself is never
   * registered in phase one, only the nodes it owns.
   */
  lemma LinkToRootRejected()
    ensures var h := Sample()[A := Linker(Root)];
      Closed(h) && IsOwnershipTree(h, Root) && !WellFormed(h, Root)
      && PhaseTwo(h, Root) == Fail(NotWellFormed(Unknown(Root)))
  {
    var h := Sample()[A := Linker(Root)];
    SampleShape();
    SingleField(1, LinkEdge(Some(Root)));
    assert Closed(h);
    PairLinkRaises(h, Root, A, B, Root);
  }
}

/**
 * The edge containers: owning single edges (Maybe/One), owning ordered
 * collections (Any/Many) and weak links (OptLink/Link). Node equality and the
 * node-level copy/clone belong to generated code, so they are parameters here.
 */
module Edges {
  import opened Base
  import opened Tree

  /** The equality of two owning (or two resolved weak) references. */
  function RefEq(a: Option<Id>, b: Option<Id>, eq: (Id, Id) -> bool): (r: bool)
    ensures a.Some? && b.Some? ==> (r <==> eq(a.value, b.value))
    ensures a.None? || b.None? ==> (r <==> a.None? && b.None?)
  {
    if a.Some? && b.Some? then eq(a.value, b.value) else a == b
  }

  /** Element-wise, order-sensitive equality of two vectors of One elements. */
  predicate VecEq(a: seq<Option<Id>>, b: seq<Option<Id>>, eq: (Id, Id) -> bool) {
    |a| == |b| && forall i :: 0 <= i < |a| ==> RefEq(a[i], b[i], eq)
  }

  ghost predicate Equivalence(eq: (Id, Id) -> bool) {
    && (forall x :: eq(x, x))
    && (forall x, y :: eq(x, y) ==> eq(y, x))
    && (forall x, y, z :: eq(x, y) && eq(y, z) ==> eq(x, z))
  }

  /** Container equality is an equivalence whenever node equality is. */
  lemma VecEqIsEquivalence(a: seq<Option<Id>>, b: seq<Option<Id>>, c: seq<Option<Id>>, eq: (Id, Id) -> bool)
    requires Equivalence(eq)
    ensures VecEq(a, a, eq)
    ensures VecEq(a, b, eq) ==> VecEq(b, a, eq)
    ensures VecEq(a, b, eq) && VecEq(b, c, eq) ==> VecEq(a, c, eq)
  {
    if VecEq(a, b, eq) && VecEq(b, c, eq) {
      forall i | 0 <= i < |a| ensures RefEq(a[i], c[i], eq) {
        assert RefEq(a[i], b[i], eq) && RefEq(b[i], c[i], eq);
      }
    }
  }

  /** The index at which Any::add places an element: pos when it indexes the vector, else the back. */
  function AddIndex(n: nat, pos: int): (i: nat)
    ensures i <= n
  {
    if 0 <= pos < n then pos else n
  }

  /** The index of the element Any::remove erases: pos when it indexes the vector, else the last one. */
  function RemoveIndex(n: nat, pos: int): (i: nat)
    requires n > 0
    ensures i < n
  {
    if 0 <= pos < n then pos else n - 1
  }

  /** The vector after Any::add(x, pos); an empty x adds nothing. */
  function Added(vec: seq<Option<Id>>, x: Option<Id>, pos: int): seq<Option<Id>> {
    if x.None? then vec
    else
      var i := AddIndex(|vec|, pos);
      vec[..i] + [x] + vec[i..]
  }

  /** The vector after Any::remove(pos); an empty vector stays empty. */
  function Removed(vec: seq<Option<Id>>, pos: int): seq<Option<Id>> {
    if vec == [] then vec
    else
      var i := RemoveIndex(|vec|, pos);
      vec[..i] + vec[i + 1..]
  }

  /** Adding a filled reference inserts exactly it, keeping the other elements in order. */
  lemma AddedShape(vec: seq<Option<Id>>, x: Option<Id>, pos: int)
    requires x.Some?
    ensures var r, i := Added(vec, x, pos), AddIndex(|vec|, pos);
      && |r| == |vec| + 1
      && r[i] == x
      && (0 <= pos < |vec| ==> i == pos)
      && (pos < 0 || pos >= |vec| ==> r == vec + [x])
      && (forall k :: 0 <= k < i ==> r[k] == vec[k])
      && (forall k :: i < k < |r| ==> r[k] == vec[k - 1])
      && multiset(r) == multiset(vec) + multiset{x}
  {
    var i := AddIndex(|vec|, pos);
    assert vec == vec[..i] + vec[i..];
  }

  /** Removing from a non-empty vector erases exactly one element, keeping the others in order. */
  lemma RemovedShape(vec: seq<Option<Id>>, pos: int)
    requires vec != []
    ensures var r, i := Removed(vec, pos), RemoveIndex(|vec|, pos);
      && |r| == |vec| - 1
      && (pos < 0 || pos >= |vec| ==> r == vec[..|vec| - 1])
      && (forall k :: 0 <= k < i ==> r[k] == vec[k])
      && (forall k :: i <= k < |r| ==> r[k] == vec[k + 1])
      && multiset(r) + multiset{vec[i]} == multiset(vec)
  {
    var i := RemoveIndex(|vec|, pos);
    assert vec == vec[..i] + [vec[i]] + vec[i + 1..];
  }

  /** Removing at the index where an element was added restores the vector. */
  lemma AddThenRemove(vec: seq<Option<Id>>, x: Option<Id>, pos: int)
    requires x.Some?
    ensures Removed(Added(vec, x, pos), AddIndex(|vec|, pos)) == vec
  {
    var i := AddIndex(|vec|, pos);
    var r := Added(vec, x, pos);
    assert r == vec[..i] + [x] + vec[i..];
    assert RemoveIndex(|r|, i) == i;
    assert r[..i] == vec[..i] && r[i + 1..] == vec[i..];
    assert vec[..i] + vec[i..] == vec;
  }

  /** Adding an erased filled element back at its index restores the vector. */
  lemma RemoveThenAdd(vec: seq<Option<Id>>, pos: int)
    requires vec != [] && vec[RemoveIndex(|vec|, pos)].Some?
    ensures var i := RemoveIndex(|vec|, pos); Added(Removed(vec, pos), vec[i], i) == vec
  {
    var i := RemoveIndex(|vec|, pos);
    var r := Removed(vec, pos);
    assert r == vec[..i] + vec[i + 1..];
    assert AddIndex(|r|, i) == i;
    assert r[..i] == vec[..i] && r[i..] == vec[i + 1..];
    assert vec[..i] + [vec[i]] + vec[i + 1..] == vec;
  }

  /** Maybe::copy and Maybe::clone: the node-level duplicate of a filled reference, else empty. */
  function CopyOf(r: Option<Id>, dup: Id -> Id): (c: Option<Id>)
    ensures c.Some? <==> r.Some?
  {
    if r.Some? then Some(dup(r.value)) else None
  }

  /** The vector Any::copy / Any::clone builds: each filled element duplicated, in order. */
  function Duplicated(vec: seq<Option<Id>>, dup: Id -> Id): seq<Option<Id>> {
    if vec == [] then []
    else
      var last := vec[|vec| - 1];
      Duplicated(vec[..|vec| - 1], dup) + (if last.Some? then [Some(dup(last.value))] else [])
  }

  /** The duplicate holds one copy per filled element, in the original order; empty ones are dropped. */
  lemma {:induction false} DuplicatedShape(vec: seq<Option<Id>>, dup: Id -> Id)
    ensures var d, f := Duplicated(vec, dup), Filled(vec);
      |d| == |f| && forall k :: 0 <= k < |d| ==> d[k] == Some(dup(f[k]))
  {
    if vec != [] {
      var init, last := vec[..|vec| - 1], vec[|vec| - 1];
      assert vec == init + [last];
      DuplicatedShape(init, dup);
      FilledAppend(init, [last]);
      assert Filled([last]) == (if last.Some? then [last.value] else []) by {
        assert [last][1..] == [];
      }
    }
  }

  /** Copying a vector without empty elements gives one of the same size that compares equal. */
  lemma CopyIsEqual(vec: seq<Option<Id>>, dup: Id -> Id, eq: (Id, Id) -> bool)
    requires forall i :: 0 <= i < |vec| ==> vec[i].Some?
    requires forall x :: eq(dup(x), x)
    ensures |Duplicated(vec, dup)| == |vec|
    ensures VecEq(Duplicated(vec, dup), vec, eq)
  {
    DuplicatedShape(vec, dup);
    FilledOfFull(vec);
  }

  /** With no empty element, Filled lists the elements themselves. */
  lemma {:induction false} FilledOfFull(vec: seq<Option<Id>>)
    requires forall i :: 0 <= i < |vec| ==> vec[i].Some?
    ensures |Filled(vec)| == |vec|
    ensures forall k :: 0 <= k < |vec| ==> Filled(vec)[k] == vec[k].value
  {
    if vec != [] {
      FilledOfFull(vec[1..]);
      assert forall k :: 1 <= k < |vec| ==> Filled(vec)[k] == Filled(vec[1..])[k - 1];
    }
  }

  /** Maybe (required = false) and One (required = true): an owning reference to zero or one node. */
  class Maybe {
    const required: bool
    var val: Option<Id>

    constructor (required: bool, val: Option<Id>)
      ensures this.required == required && this.val == val
    {
      this.required := required;
      this.val := val;
    }

    /** Takes a reference to the given node, or clears when the reference is null. */
    method Set(v: Option<Id>)
      modifies this
      ensures val == v
    {
      val := v;
    }

    method Reset()
      modifies this
      ensures val.None? && IsEmpty()
    {
      val := None;
    }

    /** Empty exactly when it owns no node. */
    predicate IsEmpty()
      reads this
      ensures IsEmpty() <==> Owned(MaybeEdge(val)) == []
    {
      val.None?
    }

    function Size(): (n: nat)
      reads this
      ensures n <= 1
      ensures n == 0 <==> IsEmpty()
    {
      if val.Some? then 1 else 0
    }

    /** The node held; out of range when empty. */
    function Deref(): (r: Result<Id>)
      reads this
      ensures r.Err? <==> IsEmpty()
      ensures r.Err? ==> r.error == OutOfRange
      ensures r.Ok? ==> val == Some(r.value)
    {
      if val.None? then Err(OutOfRange) else Ok(val.value)
    }

    /** Filled references compare their nodes; otherwise equal exactly when both are empty. */
    predicate Equals(rhs: Maybe, eq: (Id, Id) -> bool)
      reads this, rhs
      ensures IsEmpty() && rhs.IsEmpty() ==> Equals(rhs, eq)
      ensures IsEmpty() != rhs.IsEmpty() ==> !Equals(rhs, eq)
      ensures !IsEmpty() && !rhs.IsEmpty() ==> (Equals(rhs, eq) <==> eq(val.value, rhs.val.value))
    {
      RefEq(val, rhs.val, eq)
    }

    /**
     * The field as the validator sees it: a One when required, so that an
     * empty one is an error, else a Maybe; it owns the node held, if any.
     */
    function AsEdge(): (e: Edge)
      reads this
      ensures e.OneEdge? <==> required
      ensures (e.OneEdge? || e.MaybeEdge?) && e.val == val
      ensures |Owned(e)| == Size() && (val.Some? ==> Owned(e) == [val.value])
    {
      if required then OneEdge(val) else MaybeEdge(val)
    }

    /** A cast to the variants accepts: the same node when its variant is accepted, else empty. */
    function As(h: Heap, accepts: set<Tag>): (r: Option<Id>)
      reads this
      requires val.Some? ==> val.value in h
      ensures r.Some? <==> val.Some? && h[val.value].tag in accepts
      ensures r.Some? ==> r == val
    {
      if val.Some? && h[val.value].tag in accepts then val else None
    }
  }

  /** Any (required = false) and Many (required = true): an ordered vector of One elements. */
  class Any {
    const required: bool
    var vec: seq<Option<Id>>

    constructor (required: bool)
      ensures this.required == required && vec == []
    {
      this.required := required;
      vec := [];
    }

    /** Inserts a filled reference at pos, or at the back when pos is not an index; ignores an empty one. */
    method Add(ob: Option<Id>, pos: int)
      modifies this
      ensures vec == Added(old(vec), ob, pos)
    {
      if ob.None? {
        return;
      }
      if pos < 0 || pos >= |vec| {
        vec := vec + [ob];
      } else {
        vec := vec[..pos] + [ob] + vec[pos..];
      }
    }

    /** Appends the elements of another collection (extending by itself is undefined in tree-base.hpp). */
    method Extend(other: Any)
      requires other != this
      modifies this
      ensures vec == old(vec) + other.vec
      ensures other.vec == old(other.vec)
    {
      vec := vec + other.vec;
    }

    /** Erases the element at pos, or the last one when pos is not an index; nothing when empty. */
    method Remove(pos: int)
      modifies this
      ensures vec == Removed(old(vec), pos)
    {
      if |vec| == 0 {
        return;
      }
      var p := pos;
      if p < 0 || p >= |vec| {
        p := |vec| - 1;
      }
      vec := vec[..p] + vec[p + 1..];
    }

    method Reset()
      modifies this
      ensures vec == [] && Size() == 0
    {
      vec := [];
    }

    /** Empty exactly when it holds no element, filled or not; an empty one owns nothing. */
    predicate IsEmpty()
      reads this
      ensures IsEmpty() <==> vec == []
      ensures IsEmpty() ==> Owned(AnyEdge(vec)) == []
    {
      |vec| == 0
    }

    /** The number of elements, empty ones included: never fewer than the nodes owned. */
    function Size(): (n: nat)
      reads this
      ensures n == 0 <==> IsEmpty()
      ensures n >= |Owned(AnyEdge(vec))|
      ensures n == |Owned(AnyEdge(vec))| <==> forall i :: 0 <= i < |vec| ==> vec[i].Some?
    {
      |vec|
    }

    /** The element at index; out of range past the end. */
    function At(index: nat): (r: Result<Option<Id>>)
      reads this
      ensures r.Ok? <==> index < Size()
      ensures r.Ok? ==> r.value == vec[index]
      ensures r.Err? ==> r.error == OutOfRange
    {
      if index < |vec| then Ok(vec[index]) else Err(OutOfRange)
    }

    /** The last element, or an empty reference when there is none. */
    function Back(): (r: Option<Id>)
      reads this
      ensures IsEmpty() ==> r.None?
      ensures !IsEmpty() ==> At(Size() - 1) == Ok(r)
    {
      if |vec| == 0 then None else vec[|vec| - 1]
    }

    /** Equal exactly when both hold as many elements and they are pairwise equal, in order. */
    predicate Equals(rhs: Any, eq: (Id, Id) -> bool)
      reads this, rhs
      ensures Equals(rhs, eq) <==> Size() == rhs.Size() && forall i :: 0 <= i < Size() ==> RefEq(vec[i], rhs.vec[i], eq)
      ensures IsEmpty() && rhs.IsEmpty() ==> Equals(rhs, eq)
      ensures Equals(rhs, eq) ==> (IsEmpty() <==> rhs.IsEmpty())
    {
      VecEq(vec, rhs.vec, eq)
    }

    /**
     * The field as the validator sees it: a Many when required, so that an
     * empty collection is an error, else an Any; it owns its filled elements.
     */
    function AsEdge(): (e: Edge)
      reads this
      ensures e.ManyEdge? <==> required
      ensures (e.ManyEdge? || e.AnyEdge?) && e.vec == vec
      ensures Owned(e) == Filled(vec)
    {
      if required then ManyEdge(vec) else AnyEdge(vec)
    }

    /** Any::copy and Any::clone: a new Many holding the duplicate of each filled element, in order. */
    method CopyWith(dup: Id -> Id) returns (c: Any)
      ensures fresh(c) && c.required
      ensures c.vec == Duplicated(vec, dup)
    {
      c := new Any(true);
      var i := 0;
      while i < |vec|
        invariant 0 <= i <= |vec|
        invariant c.vec == Duplicated(vec[..i], dup)
      {
        assert vec[..i + 1][..i] == vec[..i];
        c.Add(CopyOf(vec[i], dup), -1);
        i := i + 1;
      }
      assert vec[..i] == vec;
    }
  }

  /** OptLink (required = false) and Link (required = true): a weak reference to a node. */
  class OptLink {
    const required: bool
    /** The node the weak pointer was last set to observe; None when never set or reset. */
    var val: Option<Id>

    constructor (required: bool, target: Option<Id>)
      ensures this.required == required && val == target
    {
      this.required := required;
      val := target;
    }

    /** Observes the node the given reference holds, or clears when it is empty. */
    method Set(target: Option<Id>)
      modifies this
      ensures val == target
    {
      val := target;
    }

    method Reset()
      modifies this
      ensures val.None?
      ensures forall h: Heap :: IsEmpty(h)
    {
      val := None;
    }

    /** The shared pointer locking yields: the target while it is alive, else null. */
    function Lock(h: Heap): (r: Option<Id>)
      reads this
      ensures r.Some? <==> Resolves(h, val)
      ensures r.Some? ==> r == val
    {
      if Resolves(h, val) then val else None
    }

    /** Empty when never set, reset, or expired. */
    predicate IsEmpty(h: Heap)
      reads this
      ensures IsEmpty(h) <==> val.None? || val.value !in h
    {
      Lock(h).None?
    }

    function Size(h: Heap): (n: nat)
      reads this
      ensures n <= 1
      ensures n == 0 <==> IsEmpty(h)
    {
      if Lock(h).Some? then 1 else 0
    }

    /** The linked node; out of range when the link is empty or expired. */
    function Deref(h: Heap): (r: Result<Id>)
      reads this
      ensures r.Err? <==> IsEmpty(h)
      ensures r.Err? ==> r.error == OutOfRange
      ensures r.Ok? ==> val == Some(r.value) && r.value in h
    {
      if Lock(h).None? then Err(OutOfRange) else Ok(Lock(h).value)
    }

    /** Links compare their live targets by value; two empty or expired links are equal. */
    predicate Equals(rhs: OptLink, h: Heap, eq: (Id, Id) -> bool)
      reads this, rhs
      ensures IsEmpty(h) && rhs.IsEmpty(h) ==> Equals(rhs, h, eq)
      ensures IsEmpty(h) != rhs.IsEmpty(h) ==> !Equals(rhs, h, eq)
      ensures !IsEmpty(h) && !rhs.IsEmpty(h) ==> (Equals(rhs, h, eq) <==> eq(val.value, rhs.val.value))
    {
      RefEq(Lock(h), rhs.Lock(h), eq)
    }

    /**
     * Identity test against an owning reference cast to the link's type: a live
     * link links to exactly its target; an empty or expired one links to any
     * reference that is empty or whose cast fails.
     */
    predicate LinksTo(target: Option<Id>, h: Heap, accepts: set<Tag>)
      reads this
      requires target.Some? ==> target.value in h
      ensures Resolves(h, val) ==> (LinksTo(target, h, accepts) <==> target == val && h[val.value].tag in accepts)
      ensures !Resolves(h, val) ==> (LinksTo(target, h, accepts) <==> target.None? || h[target.value].tag !in accepts)
    {
      var cast := if target.Some? && h[target.value].tag in accepts then target else None;
      Lock(h) == cast
    }

    /**
     * The field as the validator sees it: a Link when required, so that an
     * unset one is an error, else an OptLink; a link owns nothing.
     */
    function AsEdge(): (e: Edge)
      reads this
      ensures e.LinkEdge? <==> required
      ensures (e.LinkEdge? || e.OptLinkEdge?) && e.target == val
      ensures Owned(e) == []
    {
      if required then LinkEdge(val) else OptLinkEdge(val)
    }

    /** A cast of the live target to the variants accepts; empty when expired or on mismatch. */
    function As(h: Heap, accepts: set<Tag>): (r: Option<Id>)
      reads this
      ensures r.Some? <==> Resolves(h, val) && h[val.value].tag in accepts
      ensures r.Some? ==> r == val
    {
      var p := Lock(h);
      if p.Some? && h[p.value].tag in accepts then p else None
    }
  }
}

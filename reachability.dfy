/**
 * Phase one of validation, find_reachable: a depth-first traversal of owning
 * edges that registers every owned node in a PointerMap before descending into
 * it, and stops at the first node registered twice. Weak links are not followed.
 */
module Reachability {
  import opened Base
  import opened Tree
  import opened Registry

  /** The registration order when the traversal ended, and the duplicate that stopped it, if any. */
  datatype Walk = Walk(order: seq<Id>, dup: Option<Id>)

  /** The exception a traversal ends with. */
  function Verdict(w: Walk): Outcome {
    if w.dup.Some? then Fail(NotWellFormed(Duplicate(w.dup.value))) else Pass
  }

  /** Maybe::find_reachable on a filled reference: register the node, then traverse it. */
  ghost function WalkId(h: Heap, c: Id, v: seq<Id>): (w: Walk)
    requires Closed(h) && c in h
    ensures v <= w.order && AllIn(h, w.order[|v|..])
    decreases |h.Keys - Seen(v)|, 0, 0
  {
    if c in v then Walk(v, Some(c))
    else
      UnseenDrops(h, v, c);
      var w := WalkIds(h, Children(h[c]), v + [c]);
      AllInJoin(h, v, v + [c], w.order);
      w
  }

  /** find_reachable over owned children in order, stopping at the first duplicate. */
  ghost function WalkIds(h: Heap, cs: seq<Id>, v: seq<Id>): (w: Walk)
    requires Closed(h) && AllIn(h, cs)
    ensures v <= w.order && AllIn(h, w.order[|v|..])
    decreases |h.Keys - Seen(v)|, 1, |cs|
  {
    if cs == [] then Walk(v, None)
    else
      var first := WalkId(h, cs[0], v);
      if first.dup.Some? then first
      else
        PrefixSeen(v, first.order);
        UnseenShrinks(h, Seen(v), Seen(first.order));
        AllInTail(h, cs);
        var w := WalkIds(h, cs[1..], first.order);
        AllInJoin(h, v, first.order, w.order);
        w
  }

  /** One step of WalkIds past a child that did not stop the traversal. */
  lemma WalkNext(h: Heap, cs: seq<Id>, v: seq<Id>)
    requires Closed(h) && AllIn(h, cs) && cs != [] && WalkId(h, cs[0], v).dup.None?
    ensures AllIn(h, cs[1..])
    ensures |h.Keys - Seen(WalkId(h, cs[0], v).order)| <= |h.Keys - Seen(v)|
    ensures WalkIds(h, cs, v) == WalkIds(h, cs[1..], WalkId(h, cs[0], v).order)
  {
    AllInTail(h, cs);
    PrefixSeen(v, WalkId(h, cs[0], v).order);
    UnseenShrinks(h, Seen(v), Seen(WalkId(h, cs[0], v).order));
  }

  /** The traversal registers each node at most once. */
  lemma {:induction false} WalkIdDistinct(h: Heap, c: Id, v: seq<Id>)
    requires Closed(h) && c in h && Distinct(v)
    ensures Distinct(WalkId(h, c, v).order)
    decreases |h.Keys - Seen(v)|, 0, 0
  {
    if c !in v {
      UnseenDrops(h, v, c);
      assert Distinct(v + [c]) by {
        forall i, j | 0 <= i < j < |v + [c]| ensures (v + [c])[i] != (v + [c])[j] {
          if j == |v| {
            assert (v + [c])[i] == v[i];
          }
        }
      }
      WalkIdsDistinct(h, Children(h[c]), v + [c]);
    }
  }

  lemma {:induction false} WalkIdsDistinct(h: Heap, cs: seq<Id>, v: seq<Id>)
    requires Closed(h) && AllIn(h, cs) && Distinct(v)
    ensures Distinct(WalkIds(h, cs, v).order)
    decreases |h.Keys - Seen(v)|, 1, |cs|
  {
    if cs != [] {
      AllInTail(h, cs);
      WalkIdDistinct(h, cs[0], v);
      if WalkId(h, cs[0], v).dup.None? {
        WalkNext(h, cs, v);
        WalkIdsDistinct(h, cs[1..], WalkId(h, cs[0], v).order);
      }
    }
  }

  /** Registering a new node c: the walk is that of c's children with c appended. */
  lemma WalkIdUnfold(h: Heap, c: Id, v: seq<Id>)
    requires Closed(h) && c in h && c !in v
    ensures |h.Keys - Seen(v + [c])| < |h.Keys - Seen(v)|
    ensures WalkId(h, c, v) == WalkIds(h, Children(h[c]), v + [c])
  {
    UnseenDrops(h, v, c);
  }

  /** The registrations after v, split at the node c registered first. */
  lemma SplitFirst(h: Heap, c: Id, v: seq<Id>, o: seq<Id>)
    requires v + [c] <= o && c in h
    ensures multiset([c] + Flat(h, o[|v|..])) == multiset{c} + multiset(Children(h[c]) + Flat(h, o[|v| + 1..]))
    ensures multiset(o[|v|..]) == multiset{c} + multiset(o[|v| + 1..])
  {
    var n := o[|v|..];
    assert n[0] == c && n[1..] == o[|v| + 1..];
    assert n == [c] + n[1..];
  }

  /** The registrations after v, split at mid. */
  lemma SplitAt(v: seq<Id>, mid: seq<Id>, o: seq<Id>)
    requires v <= mid <= o
    ensures multiset(o[|v|..]) == multiset(mid[|v|..]) + multiset(o[|mid|..])
    ensures multiset(mid) == multiset(v) + multiset(mid[|v|..])
  {
    assert o[|v|..] == mid[|v|..] + o[|mid|..];
    assert mid == v + mid[|v|..];
  }

  /** The children counted with the registrations after v, split at mid. */
  lemma SplitFlat(h: Heap, cs: seq<Id>, v: seq<Id>, mid: seq<Id>, o: seq<Id>)
    requires cs != [] && v <= mid <= o
    ensures multiset(cs + Flat(h, o[|v|..]))
      == multiset([cs[0]] + Flat(h, mid[|v|..])) + multiset(cs[1..] + Flat(h, o[|mid|..]))
  {
    var n1, n2 := mid[|v|..], o[|mid|..];
    assert o[|v|..] == n1 + n2;
    FlatAppend(h, n1, n2);
    var f1, f2 := Flat(h, n1), Flat(h, n2);
    assert cs == [cs[0]] + cs[1..];
    assert multiset(cs) == multiset([cs[0]]) + multiset(cs[1..]);
    assert multiset(cs + (f1 + f2)) == multiset(cs) + multiset(f1) + multiset(f2);
  }

  /** Joins the counts of a first walk that completed and of the walk after it. */
  lemma CountJoin(h: Heap, cs: seq<Id>, v: seq<Id>, mid: seq<Id>, o: seq<Id>, dup: Option<Id>)
    requires cs != [] && v <= mid <= o
    requires multiset([cs[0]] + Flat(h, mid[|v|..])) == multiset(mid[|v|..])
    requires dup.None? ==> multiset(cs[1..] + Flat(h, o[|mid|..])) == multiset(o[|mid|..])
    requires dup.Some? ==> multiset(cs[1..] + Flat(h, o[|mid|..]))[dup.value] + multiset(mid)[dup.value] >= 2
    ensures dup.None? ==> multiset(cs + Flat(h, o[|v|..])) == multiset(o[|v|..])
    ensures dup.Some? ==> multiset(cs + Flat(h, o[|v|..]))[dup.value] + multiset(v)[dup.value] >= 2
  {
    SplitAt(v, mid, o);
    SplitFlat(h, cs, v, mid, o);
  }

  /** A walk that stopped in its first child stopped for the whole list. */
  lemma CountFirst(h: Heap, cs: seq<Id>, v: seq<Id>, n: seq<Id>, d: Id)
    requires cs != []
    requires multiset([cs[0]] + Flat(h, n))[d] + multiset(v)[d] >= 2
    ensures multiset(cs + Flat(h, n))[d] + multiset(v)[d] >= 2
  {
    var f := Flat(h, n);
    assert cs == [cs[0]] + cs[1..];
    assert multiset(cs + f) == multiset([cs[0]] + f) + multiset(cs[1..]);
  }

  /**
   * Counting occurrences: a traversal that completes registers exactly the
   * children it was given plus the children of every node it registered; one
   * that stops has seen its duplicate twice among those and what was registered before.
   */
  lemma {:induction false} WalkIdCount(h: Heap, c: Id, v: seq<Id>)
    requires Closed(h) && c in h
    ensures var w := WalkId(h, c, v); var n := w.order[|v|..];
      && (w.dup.None? ==> multiset([c] + Flat(h, n)) == multiset(n))
      && (w.dup.Some? ==> multiset([c] + Flat(h, n))[w.dup.value] + multiset(v)[w.dup.value] >= 2)
    decreases |h.Keys - Seen(v)|, 0, 0
  {
    if c !in v {
      WalkIdUnfold(h, c, v);
      WalkIdsCount(h, Children(h[c]), v + [c]);
      SplitFirst(h, c, v, WalkId(h, c, v).order);
      assert multiset(v + [c]) == multiset(v) + multiset{c};
    }
  }

  lemma {:induction false} WalkIdsCount(h: Heap, cs: seq<Id>, v: seq<Id>)
    requires Closed(h) && AllIn(h, cs)
    ensures var w := WalkIds(h, cs, v); var n := w.order[|v|..];
      && (w.dup.None? ==> multiset(cs + Flat(h, n)) == multiset(n))
      && (w.dup.Some? ==> multiset(cs + Flat(h, n))[w.dup.value] + multiset(v)[w.dup.value] >= 2)
    decreases |h.Keys - Seen(v)|, 1, |cs|
  {
    if cs != [] {
      AllInTail(h, cs);
      var first := WalkId(h, cs[0], v);
      WalkIdCount(h, cs[0], v);
      if first.dup.None? {
        WalkNext(h, cs, v);
        var w := WalkIds(h, cs[1..], first.order);
        WalkIdsCount(h, cs[1..], first.order);
        CountJoin(h, cs, v, first.order, w.order, w.dup);
      } else {
        CountFirst(h, cs, v, first.order[|v|..], first.dup.value);
      }
    }
  }

  /**
   * Every identity registered in o from position `from` on is one of the
   * starting children cs or a child of a node registered before it.
   */
  ghost predicate RootedFrom(h: Heap, cs: seq<Id>, o: seq<Id>, from: nat) {
    forall k :: from <= k < |o| ==>
      o[k] in cs || exists j :: from <= j < k && o[j] in h && o[k] in Children(h[o[j]])
  }

  /** Every node registered in o from position `from` on has all its children registered after it. */
  ghost predicate Preorder(h: Heap, o: seq<Id>, from: nat) {
    forall k, x :: from <= k < |o| && o[k] in h && x in Children(h[o[k]]) ==> x in o[k + 1..]
  }

  lemma RootedJoin(h: Heap, cs: seq<Id>, v: seq<Id>, mid: seq<Id>, o: seq<Id>)
    requires cs != [] && v <= mid <= o
    requires RootedFrom(h, [cs[0]], mid, |v|) && RootedFrom(h, cs[1..], o, |mid|)
    ensures RootedFrom(h, cs, o, |v|)
  {
    forall k | |v| <= k < |o|
      ensures o[k] in cs || exists j :: |v| <= j < k && o[j] in h && o[k] in Children(h[o[j]])
    {
      if k < |mid| {
        assert o[k] == mid[k];
        if mid[k] !in [cs[0]] {
          var j :| |v| <= j < k && mid[j] in h && mid[k] in Children(h[mid[j]]);
          assert o[j] == mid[j];
        }
      } else if o[k] !in cs[1..] {
        var j :| |mid| <= j < k && o[j] in h && o[k] in Children(h[o[j]]);
      }
    }
  }

  /** The traversal registers only the children it starts from and their descendants. */
  lemma {:induction false} WalkIdRooted(h: Heap, c: Id, v: seq<Id>)
    requires Closed(h) && c in h
    ensures RootedFrom(h, [c], WalkId(h, c, v).order, |v|)
    decreases |h.Keys - Seen(v)|, 0, 0
  {
    if c !in v {
      WalkIdUnfold(h, c, v);
      WalkIdsRooted(h, Children(h[c]), v + [c]);
      var o := WalkId(h, c, v).order;
      assert o[|v|] == c;
      forall k | |v| <= k < |o|
        ensures o[k] in [c] || exists j :: |v| <= j < k && o[j] in h && o[k] in Children(h[o[j]])
      {
        if k > |v| && o[k] !in Children(h[c]) {
          var j :| |v| + 1 <= j < k && o[j] in h && o[k] in Children(h[o[j]]);
        }
      }
    }
  }

  lemma {:induction false} WalkIdsRooted(h: Heap, cs: seq<Id>, v: seq<Id>)
    requires Closed(h) && AllIn(h, cs)
    ensures RootedFrom(h, cs, WalkIds(h, cs, v).order, |v|)
    decreases |h.Keys - Seen(v)|, 1, |cs|
  {
    if cs != [] {
      AllInTail(h, cs);
      var first := WalkId(h, cs[0], v);
      WalkIdRooted(h, cs[0], v);
      if first.dup.None? {
        WalkNext(h, cs, v);
        WalkIdsRooted(h, cs[1..], first.order);
        RootedJoin(h, cs, v, first.order, WalkIds(h, cs, v).order);
      } else {
        assert RootedFrom(h, [], first.order, |first.order|);
        RootedJoin(h, cs, v, first.order, first.order);
      }
    }
  }

  lemma PreorderJoin(h: Heap, v: seq<Id>, mid: seq<Id>, o: seq<Id>)
    requires v <= mid <= o && Preorder(h, mid, |v|) && Preorder(h, o, |mid|)
    ensures Preorder(h, o, |v|)
  {
    forall k, x | |v| <= k < |o| && o[k] in h && x in Children(h[o[k]])
      ensures x in o[k + 1..]
    {
      if k < |mid| {
        assert o[k] == mid[k] && x in mid[k + 1..];
        assert mid[k + 1..] <= o[k + 1..];
      }
    }
  }

  /** A traversal that completes registers every child it was given. */
  lemma WalkIdsCovers(h: Heap, cs: seq<Id>, v: seq<Id>)
    requires Closed(h) && AllIn(h, cs) && WalkIds(h, cs, v).dup.None?
    ensures forall x :: x in cs ==> x in WalkIds(h, cs, v).order[|v|..]
  {
    WalkIdsCount(h, cs, v);
    var n := WalkIds(h, cs, v).order[|v|..];
    forall x | x in cs ensures x in n {
      assert x in multiset(cs + Flat(h, n));
    }
  }

  lemma PreorderHead(h: Heap, c: Id, v: seq<Id>, o: seq<Id>)
    requires v + [c] <= o && c in h && Preorder(h, o, |v| + 1)
    requires forall x :: x in Children(h[c]) ==> x in o[|v| + 1..]
    ensures Preorder(h, o, |v|)
  {
    assert o[|v|] == c;
  }

  /** A traversal that completes registers every child of a node after that node. */
  lemma {:induction false} WalkIdPreorder(h: Heap, c: Id, v: seq<Id>)
    requires Closed(h) && c in h
    ensures WalkId(h, c, v).dup.None? ==> Preorder(h, WalkId(h, c, v).order, |v|)
    decreases |h.Keys - Seen(v)|, 0, 0
  {
    if c !in v {
      WalkIdUnfold(h, c, v);
      WalkIdsPreorder(h, Children(h[c]), v + [c]);
      if WalkId(h, c, v).dup.None? {
        WalkIdsCovers(h, Children(h[c]), v + [c]);
        PreorderHead(h, c, v, WalkId(h, c, v).order);
      }
    }
  }

  lemma {:induction false} WalkIdsPreorder(h: Heap, cs: seq<Id>, v: seq<Id>)
    requires Closed(h) && AllIn(h, cs)
    ensures WalkIds(h, cs, v).dup.None? ==> Preorder(h, WalkIds(h, cs, v).order, |v|)
    decreases |h.Keys - Seen(v)|, 1, |cs|
  {
    if cs != [] {
      AllInTail(h, cs);
      var first := WalkId(h, cs[0], v);
      WalkIdPreorder(h, cs[0], v);
      if first.dup.None? {
        WalkNext(h, cs, v);
        WalkIdsPreorder(h, cs[1..], first.order);
        if WalkIds(h, cs, v).dup.None? {
          PreorderJoin(h, v, first.order, WalkIds(h, cs, v).order);
        }
      }
    }
  }

  /** Traversing a concatenation traverses the first part, then, unless it stopped, the second. */
  lemma {:induction false} WalkAppend(h: Heap, a: seq<Id>, b: seq<Id>, v: seq<Id>)
    requires Closed(h) && AllIn(h, a) && AllIn(h, b)
    ensures AllIn(h, a + b)
    ensures WalkIds(h, a + b, v) == (var w := WalkIds(h, a, v); if w.dup.Some? then w else WalkIds(h, b, w.order))
    decreases |a|
  {
    assert AllIn(h, a + b) by {
      forall x | x in a + b ensures x in h {
        assert x in a || x in b;
      }
    }
    if a == [] {
      assert a + b == b;
    } else {
      var ab := a + b;
      assert ab[0] == a[0] && ab[1..] == a[1..] + b;
      assert AllIn(h, a[1..]) by {
        forall x | x in a[1..] ensures x in h {
          assert x in a;
        }
      }
      var first := WalkId(h, a[0], v);
      if first.dup.None? {
        WalkAppend(h, a[1..], b, first.order);
      }
    }
  }

  /** One loop step of a traversal: the part a is walked next, then b; the measure has not grown. */
  lemma WalkStep(h: Heap, a: seq<Id>, b: seq<Id>, v0: seq<Id>, v: seq<Id>)
    requires Closed(h) && AllIn(h, a + b) && v0 <= v
    ensures AllIn(h, a) && AllIn(h, b)
    ensures |h.Keys - Seen(v)| <= |h.Keys - Seen(v0)|
    ensures WalkIds(h, a + b, v) == (var w := WalkIds(h, a, v); if w.dup.Some? then w else WalkIds(h, b, w.order))
  {
    forall x | x in a || x in b ensures x in h {
      assert x in a + b;
    }
    WalkAppend(h, a, b, v);
    PrefixSeen(v0, v);
    UnseenShrinks(h, Seen(v0), Seen(v));
  }

  /**
   * Maybe::find_reachable (and One's, which it inherits) on a filled reference:
   * registers the pointee, then lets the node register what it owns.
   */
  method FindReachableMaybe(h: Heap, c: Id, pm: PointerMap) returns (r: Outcome)
    requires Closed(h) && c in h && pm.Valid()
    modifies pm
    ensures pm.Valid()
    ensures pm.order == WalkId(h, c, old(pm.order)).order
    ensures r == Verdict(WalkId(h, c, old(pm.order)))
    decreases |h.Keys - Seen(pm.order)|, 0
  {
    var added := pm.Add(c);
    if added.Err? {
      return Fail(added.error);
    }
    UnseenDrops(h, old(pm.order), c);
    r := FindReachableNode(h, c, pm);
  }

  /** A generated node's find_reachable: each field in declaration order, stopping at the first exception. */
  method FindReachableNode(h: Heap, id: Id, pm: PointerMap) returns (r: Outcome)
    requires Closed(h) && id in h && pm.Valid()
    modifies pm
    ensures pm.Valid()
    ensures pm.order == WalkIds(h, Children(h[id]), old(pm.order)).order
    ensures r == Verdict(WalkIds(h, Children(h[id]), old(pm.order)))
    decreases |h.Keys - Seen(pm.order)|, 4
  {
    var fs := h[id].fields;
    var i := 0;
    while i < |fs|
      invariant 0 <= i <= |fs| && pm.Valid()
      invariant old(pm.order) <= pm.order
      invariant AllIn(h, OwnedFields(fs[i..]))
      invariant WalkIds(h, Children(h[id]), old(pm.order)) == WalkIds(h, OwnedFields(fs[i..]), pm.order)
    {
      OwnedFieldsFrom(fs, i);
      WalkStep(h, Owned(fs[i]), OwnedFields(fs[i + 1..]), old(pm.order), pm.order);
      r := FindReachableEdge(h, fs[i], pm);
      if r.Fail? {
        return;
      }
      i := i + 1;
    }
    assert fs[i..] == [];
    r := Pass;
  }

  /**
   * find_reachable of an edge container: Maybe and One register their pointee,
   * Any and Many each of their elements, and OptLink and Link do nothing.
   */
  method FindReachableEdge(h: Heap, e: Edge, pm: PointerMap) returns (r: Outcome)
    requires Closed(h) && AllIn(h, Owned(e)) && pm.Valid()
    modifies pm
    ensures pm.Valid()
    ensures pm.order == WalkIds(h, Owned(e), old(pm.order)).order
    ensures r == Verdict(WalkIds(h, Owned(e), old(pm.order)))
    decreases |h.Keys - Seen(pm.order)|, 3
  {
    match e
    case MaybeEdge(val) =>
      r := FindReachableOne(h, val, pm);
    case OneEdge(val) =>
      r := FindReachableOne(h, val, pm);
    case AnyEdge(vec) =>
      r := FindReachableElems(h, vec, pm);
    case ManyEdge(vec) =>
      r := FindReachableElems(h, vec, pm);
    case OptLinkEdge(_) =>
      r := Pass;
    case LinkEdge(_) =>
      r := Pass;
  }

  /** Maybe::find_reachable: an empty reference registers nothing. */
  method FindReachableOne(h: Heap, val: Option<Id>, pm: PointerMap) returns (r: Outcome)
    requires Closed(h) && (val.Some? ==> val.value in h) && pm.Valid()
    modifies pm
    ensures pm.Valid()
    ensures var cs := if val.Some? then [val.value] else [];
      pm.order == WalkIds(h, cs, old(pm.order)).order && r == Verdict(WalkIds(h, cs, old(pm.order)))
    decreases |h.Keys - Seen(pm.order)|, 1
  {
    if val.Some? {
      assert [val.value][1..] == [];
      r := FindReachableMaybe(h, val.value, pm);
    } else {
      r := Pass;
    }
  }

  /** Any::find_reachable: every element in order, an empty element registering nothing. */
  method FindReachableElems(h: Heap, vec: seq<Option<Id>>, pm: PointerMap) returns (r: Outcome)
    requires Closed(h) && AllIn(h, Filled(vec)) && pm.Valid()
    modifies pm
    ensures pm.Valid()
    ensures pm.order == WalkIds(h, Filled(vec), old(pm.order)).order
    ensures r == Verdict(WalkIds(h, Filled(vec), old(pm.order)))
    decreases |h.Keys - Seen(pm.order)|, 2
  {
    var j := 0;
    while j < |vec|
      invariant 0 <= j <= |vec| && pm.Valid()
      invariant old(pm.order) <= pm.order
      invariant AllIn(h, Filled(vec[j..]))
      invariant WalkIds(h, Filled(vec), old(pm.order)) == WalkIds(h, Filled(vec[j..]), pm.order)
    {
      FilledFrom(vec, j);
      var head := if vec[j].Some? then [vec[j].value] else [];
      WalkStep(h, head, Filled(vec[j + 1..]), old(pm.order), pm.order);
      r := FindReachableOne(h, vec[j], pm);
      if r.Fail? {
        return;
      }
      j := j + 1;
    }
    assert vec[j..] == [];
    r := Pass;
  }
}

/**
 * The tree as the validator sees it: a heap of live nodes, each an ordered list
 * of edge fields drawn from the six container kinds of the library.
 */
module Tree {
  import opened Base

  /** The concrete node variant of a node, as dynamic casts observe it. */
  type Tag = nat

  /**
   * The state of one edge container. Maybe/One and OptLink/Link hold one
   * reference or none; Any/Many hold a vector of One elements, each of which
   * may be empty.
   */
  datatype Edge =
    | MaybeEdge(val: Option<Id>)
    | OneEdge(val: Option<Id>)
    | AnyEdge(vec: seq<Option<Id>>)
    | ManyEdge(vec: seq<Option<Id>>)
    | OptLinkEdge(target: Option<Id>)
    | LinkEdge(target: Option<Id>)

  /** A generated node: its variant and its edge fields in declaration order. */
  datatype Node = Node(tag: Tag, fields: seq<Edge>)

  /** The live nodes. A weak link whose target is not in the heap has expired. */
  type Heap = map<Id, Node>

  /** Whether locking a weak reference yields a node: it was set and its target is alive. */
  predicate Resolves(h: Heap, t: Option<Id>) {
    t.Some? && t.value in h
  }

  /** The identities held by the filled elements of a vector, in order. */
  function Filled(vec: seq<Option<Id>>): (r: seq<Id>)
    ensures |r| <= |vec|
    ensures |r| == |vec| <==> forall i :: 0 <= i < |vec| ==> vec[i].Some?
    ensures forall x :: x in r <==> Some(x) in vec
  {
    if vec == [] then []
    else (if vec[0].Some? then [vec[0].value] else []) + Filled(vec[1..])
  }

  /** The nodes an edge owns, in order; weak links own nothing. */
  function Owned(e: Edge): seq<Id> {
    match e
    case MaybeEdge(v) => if v.Some? then [v.value] else []
    case OneEdge(v) => if v.Some? then [v.value] else []
    case AnyEdge(vec) => Filled(vec)
    case ManyEdge(vec) => Filled(vec)
    case OptLinkEdge(_) => []
    case LinkEdge(_) => []
  }

  /** The nodes a list of fields owns, field by field. */
  function OwnedFields(fs: seq<Edge>): seq<Id> {
    if fs == [] then [] else Owned(fs[0]) + OwnedFields(fs[1..])
  }

  /** The nodes a node owns directly, in traversal order. */
  function Children(n: Node): seq<Id> {
    OwnedFields(n.fields)
  }

  ghost predicate AllIn(h: Heap, s: seq<Id>) {
    forall x :: x in s ==> x in h
  }

  /** Every owned node is alive: shared ownership keeps its pointee in the heap. */
  ghost predicate Closed(h: Heap) {
    forall id, c :: id in h && c in Children(h[id]) ==> c in h
  }

  ghost function Seen(s: seq<Id>): set<Id> {
    set x | x in s
  }

  ghost predicate Distinct(s: seq<Id>) {
    forall i, j :: 0 <= i < j < |s| ==> s[i] != s[j]
  }

  /** The children of a live node; a node outside the heap owns nothing. */
  ghost function Kids(h: Heap, x: Id): seq<Id> {
    if x in h then Children(h[x]) else []
  }

  /** The children of the nodes of o, node after node. */
  ghost function Flat(h: Heap, o: seq<Id>): seq<Id> {
    if o == [] then [] else Kids(h, o[0]) + Flat(h, o[1..])
  }

  lemma {:induction false} FilledAppend(a: seq<Option<Id>>, b: seq<Option<Id>>)
    ensures Filled(a + b) == Filled(a) + Filled(b)
  {
    if a == [] {
      assert a + b == b;
    } else {
      assert (a + b)[0] == a[0] && (a + b)[1..] == a[1..] + b;
      FilledAppend(a[1..], b);
    }
  }

  lemma {:induction false} FlatAppend(h: Heap, a: seq<Id>, b: seq<Id>)
    ensures Flat(h, a + b) == Flat(h, a) + Flat(h, b)
  {
    if a == [] {
      assert a + b == b;
    } else {
      assert (a + b)[0] == a[0] && (a + b)[1..] == a[1..] + b;
      FlatAppend(h, a[1..], b);
    }
  }

  /** Every child of a live node of o occurs in Flat(h, o). */
  lemma {:induction false} FlatContains(h: Heap, o: seq<Id>, k: nat, c: Id)
    requires k < |o| && o[k] in h && c in Children(h[o[k]])
    ensures c in Flat(h, o)
  {
    if k > 0 {
      FlatContains(h, o[1..], k - 1, c);
    }
  }

  /** Removing fewer identities leaves more of the heap unregistered. */
  lemma UnseenShrinks(h: Heap, a: set<Id>, b: set<Id>)
    requires a <= b
    ensures |h.Keys - b| <= |h.Keys - a|
  {
    var small, big := h.Keys - b, h.Keys - a;
    assert big == small + (big - small);
    assert small * (big - small) == {};
  }

  /** Registering one live, unregistered identity leaves one fewer unregistered. */
  lemma UnseenDrops(h: Heap, v: seq<Id>, c: Id)
    requires c in h && c !in v
    ensures |h.Keys - Seen(v + [c])| < |h.Keys - Seen(v)|
  {
    assert Seen(v + [c]) == Seen(v) + {c};
    assert h.Keys - Seen(v + [c]) == (h.Keys - Seen(v)) - {c};
  }

  lemma PrefixSeen(a: seq<Id>, b: seq<Id>)
    requires a <= b
    ensures Seen(a) <= Seen(b)
  {
    forall x | x in a ensures x in b {
      var k :| 0 <= k < |a| && a[k] == x;
      assert b[k] == x;
    }
  }

  lemma AllInTail(h: Heap, s: seq<Id>)
    requires AllIn(h, s) && s != []
    ensures s[0] in h && AllIn(h, s[1..])
  {
    forall x | x in s[1..] ensures x in h {
      assert x in s;
    }
  }

  /** A sequence without repetitions holds each identity at most once. */
  lemma {:induction false} DistinctCount(s: seq<Id>)
    requires Distinct(s)
    ensures forall x :: multiset(s)[x] <= 1
  {
    if s != [] {
      assert s == [s[0]] + s[1..];
      assert Distinct(s[1..]) by {
        forall i, j | 0 <= i < j < |s[1..]| ensures s[1..][i] != s[1..][j] {
          assert s[1..][i] == s[i + 1] && s[1..][j] == s[j + 1];
        }
      }
      DistinctCount(s[1..]);
      assert s[0] !in s[1..] by {
        forall i | 0 <= i < |s[1..]| ensures s[1..][i] != s[0] {
          assert s[1..][i] == s[i + 1];
        }
      }
    }
  }

  /** Duplicate-free sequences compare as multisets the way their sets of elements do. */
  lemma DistinctSub(a: seq<Id>, b: seq<Id>)
    requires Distinct(a) && Distinct(b) && Seen(a) <= Seen(b)
    ensures multiset(a) <= multiset(b)
  {
    DistinctCount(a);
    forall x ensures multiset(a)[x] <= multiset(b)[x] {
      if x in a {
        assert x in Seen(b);
      }
    }
  }

  /** Taking node k out of o takes exactly its children out of Flat(h, o). */
  lemma FlatRemove(h: Heap, o: seq<Id>, k: nat)
    requires k < |o|
    ensures multiset(Flat(h, o)) == multiset(Kids(h, o[k])) + multiset(Flat(h, o[..k] + o[k + 1..]))
  {
    var x, o1, o2 := o[k], o[..k], o[k + 1..];
    assert o == o1 + ([x] + o2);
    FlatAppend(h, o1, o2);
    FlatAppend(h, [x], o2);
    FlatAppend(h, o1, [x] + o2);
    assert [x][1..] == [];
  }

  lemma MultisetCancel(a: seq<Id>, x: Id, b: multiset<Id>)
    requires a != [] && a[0] == x && multiset(a) <= b + multiset{x}
    ensures multiset(a[1..]) <= b
  {
    assert a == [x] + a[1..];
    forall y ensures multiset(a[1..])[y] <= b[y] {
      assert multiset(a)[y] == multiset(a[1..])[y] + multiset{x}[y];
    }
  }

  /** Flat is monotone in the multiset of nodes it flattens. */
  lemma {:induction false} FlatMono(h: Heap, a: seq<Id>, b: seq<Id>)
    requires multiset(a) <= multiset(b)
    ensures multiset(Flat(h, a)) <= multiset(Flat(h, b))
    decreases |a|
  {
    if a != [] {
      var x := a[0];
      assert x in multiset(b);
      var k :| 0 <= k < |b| && b[k] == x;
      var rest := b[..k] + b[k + 1..];
      assert b == b[..k] + [x] + b[k + 1..];
      assert multiset(b) == multiset(rest) + multiset{x};
      MultisetCancel(a, x, multiset(rest));
      FlatRemove(h, b, k);
      FlatMono(h, a[1..], rest);
    }
  }

  /** The owned children of the fields from index i on: those of field i, then the rest. */
  lemma OwnedFieldsFrom(fs: seq<Edge>, i: nat)
    requires i < |fs|
    ensures OwnedFields(fs[i..]) == Owned(fs[i]) + OwnedFields(fs[i + 1..])
  {
    assert fs[i..][1..] == fs[i + 1..];
  }

  /** The filled elements of a vector from index j on: element j if filled, then the rest. */
  lemma FilledFrom(vec: seq<Option<Id>>, j: nat)
    requires j < |vec|
    ensures Filled(vec[j..]) == (if vec[j].Some? then [vec[j].value] else []) + Filled(vec[j + 1..])
  {
    assert vec[j..][1..] == vec[j + 1..];
  }

  /** The part of o after v is live when the parts before and after mid are. */
  lemma AllInJoin(h: Heap, v: seq<Id>, mid: seq<Id>, o: seq<Id>)
    requires v <= mid <= o && AllIn(h, mid[|v|..]) && AllIn(h, o[|mid|..])
    ensures AllIn(h, o[|v|..])
  {
    var a, b := mid[|v|..], o[|mid|..];
    assert o[|v|..] == a + b;
    forall x | x in a + b ensures x in h {
      assert x in a || x in b;
    }
  }
}

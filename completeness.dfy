/**
 * Phase two of validation, check_complete: a second depth-first traversal of
 * owning edges that checks every required edge is populated and every weak
 * link resolves to a node registered in phase one. It only reads the PointerMap.
 */
module Completeness {
  import opened Base
  import opened Tree
  import opened Registry
  import Edges

  /** Every node in cs is live and ranked below bound. */
  ghost predicate Below(h: Heap, rank: map<Id, nat>, cs: seq<Id>, bound: nat) {
    forall c :: c in cs ==> c in h && c in rank && rank[c] < bound
  }

  /**
   * A ranking of live nodes in which every owned child ranks below its owner:
   * a witness that ownership has no cycle among the ranked nodes, which is what
   * makes the recursive completeness check terminate.
   */
  ghost predicate Ranked(h: Heap, rank: map<Id, nat>) {
    forall x :: x in rank ==> x in h && Below(h, rank, Children(h[x]), rank[x])
  }

  /** PointerMap::get on a link target, as seen by check_complete: a registered target passes. */
  function LookUp(reg: set<Id>, t: Id): (r: Outcome)
    ensures r.Pass? <==> t in reg
    ensures r.Fail? ==> r.error == NotWellFormed(Unknown(t))
  {
    if t in reg then Pass else Fail(NotWellFormed(Unknown(t)))
  }

  /** What check_complete of one edge demands of that edge alone, without descending. */
  ghost predicate EdgeComplete(h: Heap, reg: set<Id>, e: Edge) {
    match e
    case MaybeEdge(_) => true
    case OneEdge(v) => v.Some?
    case AnyEdge(vec) => None !in vec
    case ManyEdge(vec) => |vec| > 0 && None !in vec
    case OptLinkEdge(t) => Resolves(h, t) ==> t.value in reg
    case LinkEdge(t) => Resolves(h, t) && t.value in reg
  }

  /** Every edge of the node is complete with respect to the registered nodes reg. */
  ghost predicate NodeComplete(h: Heap, reg: set<Id>, id: Id)
    requires id in h
  {
    forall i :: 0 <= i < |h[id].fields| ==> EdgeComplete(h, reg, h[id].fields[i])
  }

  /** A failed completeness check raises NotWellFormed, and never for a duplicate. */
  ghost predicate Incomplete(r: Outcome) {
    r.Fail? ==> r.error.NotWellFormed? && !r.error.why.Duplicate?
  }

  /** check_complete of a generated node: its fields in declaration order, stopping at the first exception. */
  ghost function CompleteNode(h: Heap, reg: set<Id>, rank: map<Id, nat>, id: Id, bound: nat): (r: Outcome)
    requires Ranked(h, rank) && id in h && Below(h, rank, Children(h[id]), bound)
    ensures Incomplete(r)
    decreases bound, 3, 0
  {
    CompleteFields(h, reg, rank, h[id].fields, bound)
  }

  ghost function CompleteFields(h: Heap, reg: set<Id>, rank: map<Id, nat>, fs: seq<Edge>, bound: nat): (r: Outcome)
    requires Ranked(h, rank) && Below(h, rank, OwnedFields(fs), bound)
    ensures Incomplete(r)
    decreases bound, 2, |fs|
  {
    if fs == [] then Pass
    else
      var first := CompleteEdge(h, reg, rank, fs[0], bound);
      if first.Fail? then first else CompleteFields(h, reg, rank, fs[1..], bound)
  }

  /**
   * check_complete of an edge container: Maybe descends into a filled pointee,
   * One also rejects an empty one; Any checks every element as a One, Many
   * also rejects an empty vector; a filled OptLink and any Link must name a
   * registered node, and a Link must not be empty or expired.
   */
  ghost function CompleteEdge(h: Heap, reg: set<Id>, rank: map<Id, nat>, e: Edge, bound: nat): (r: Outcome)
    requires Ranked(h, rank) && Below(h, rank, Owned(e), bound)
    ensures Incomplete(r)
    decreases bound, 1, 0
  {
    match e
    case MaybeEdge(v) =>
      if v.None? then Pass
      else CompleteNode(h, reg, rank, v.value, rank[v.value])
    case OneEdge(v) =>
      CompleteOne(h, reg, rank, v, bound)
    case AnyEdge(vec) =>
      CompleteElems(h, reg, rank, vec, bound)
    case ManyEdge(vec) =>
      if vec == [] then Fail(NotWellFormed(EmptyMany))
      else CompleteElems(h, reg, rank, vec, bound)
    case OptLinkEdge(t) =>
      if Resolves(h, t) then LookUp(reg, t.value) else Pass
    case LinkEdge(t) =>
      if !Resolves(h, t) then Fail(NotWellFormed(EmptyLink))
      else LookUp(reg, t.value)
  }

  /** One::check_complete: an empty One is incomplete, a filled one descends. */
  ghost function CompleteOne(h: Heap, reg: set<Id>, rank: map<Id, nat>, v: Option<Id>, bound: nat): (r: Outcome)
    requires Ranked(h, rank) && (v.Some? ==> Below(h, rank, [v.value], bound))
    ensures Incomplete(r)
    decreases bound, 0, 1
  {
    if v.None? then Fail(NotWellFormed(EmptyOne))
    else CompleteNode(h, reg, rank, v.value, rank[v.value])
  }

  /** An empty Maybe field passes; an empty One field raises EmptyOne. */
  lemma EmptyMaybeChecked(x: Edges.Maybe, h: Heap, reg: set<Id>, rank: map<Id, nat>, bound: nat)
    requires Ranked(h, rank) && x.IsEmpty()
    ensures Owned(x.AsEdge()) == []
    ensures CompleteEdge(h, reg, rank, x.AsEdge(), bound) == if x.required then Fail(NotWellFormed(EmptyOne)) else Pass
  {
  }

  /** An empty Any field passes; an empty Many field raises EmptyMany. */
  lemma EmptyAnyChecked(x: Edges.Any, h: Heap, reg: set<Id>, rank: map<Id, nat>, bound: nat)
    requires Ranked(h, rank) && x.IsEmpty()
    ensures Owned(x.AsEdge()) == []
    ensures CompleteEdge(h, reg, rank, x.AsEdge(), bound) == if x.required then Fail(NotWellFormed(EmptyMany)) else Pass
  {
  }

  /** An empty or expired OptLink field passes; an empty or expired Link field raises EmptyLink. */
  lemma EmptyOptLinkChecked(x: Edges.OptLink, h: Heap, reg: set<Id>, rank: map<Id, nat>, bound: nat)
    requires Ranked(h, rank) && x.IsEmpty(h)
    ensures Owned(x.AsEdge()) == []
    ensures CompleteEdge(h, reg, rank, x.AsEdge(), bound) == if x.required then Fail(NotWellFormed(EmptyLink)) else Pass
  {
  }

  /** A filled Maybe or One field checks the node it holds, whether required or not. */
  lemma FilledMaybeChecked(x: Edges.Maybe, h: Heap, reg: set<Id>, rank: map<Id, nat>, bound: nat)
    requires Ranked(h, rank) && !x.IsEmpty() && Below(h, rank, [x.val.value], bound)
    ensures Owned(x.AsEdge()) == [x.val.value] && x.val.value in rank
    ensures CompleteEdge(h, reg, rank, x.AsEdge(), bound) == CompleteNode(h, reg, rank, x.val.value, rank[x.val.value])
  {
    assert x.val.value in [x.val.value];
  }

  /** A non-empty Any or Many field checks its elements in order, whether required or not. */
  lemma FilledAnyChecked(x: Edges.Any, h: Heap, reg: set<Id>, rank: map<Id, nat>, bound: nat)
    requires Ranked(h, rank) && !x.IsEmpty() && Below(h, rank, Filled(x.vec), bound)
    ensures Owned(x.AsEdge()) == Filled(x.vec)
    ensures CompleteEdge(h, reg, rank, x.AsEdge(), bound) == CompleteElems(h, reg, rank, x.vec, bound)
  {
  }

  /** A live OptLink or Link field looks its target up in the registry, whether required or not. */
  lemma LiveOptLinkChecked(x: Edges.OptLink, h: Heap, reg: set<Id>, rank: map<Id, nat>, bound: nat)
    requires Ranked(h, rank) && !x.IsEmpty(h)
    ensures Owned(x.AsEdge()) == []
    ensures CompleteEdge(h, reg, rank, x.AsEdge(), bound) == LookUp(reg, x.val.value)
  {
  }

  /** Any::check_complete: every element, in order, as a One. */
  ghost function CompleteElems(h: Heap, reg: set<Id>, rank: map<Id, nat>, vec: seq<Option<Id>>, bound: nat): (r: Outcome)
    requires Ranked(h, rank) && Below(h, rank, Filled(vec), bound)
    ensures Incomplete(r)
    decreases bound, 0, 2 + |vec|
  {
    if vec == [] then Pass
    else
      var first := CompleteOne(h, reg, rank, vec[0], bound);
      if first.Fail? then first else CompleteElems(h, reg, rank, vec[1..], bound)
  }

  /** A vector whose first element is filled passes when that node and the rest pass. */
  lemma ElemsFirst(h: Heap, reg: set<Id>, rank: map<Id, nat>, vec: seq<Option<Id>>, bound: nat)
    requires Ranked(h, rank) && Below(h, rank, Filled(vec), bound) && vec != [] && vec[0].Some?
    ensures Below(h, rank, Filled(vec[1..]), bound) && vec[0].value in rank
    ensures CompleteElems(h, reg, rank, vec, bound).Pass? <==>
      CompleteNode(h, reg, rank, vec[0].value, rank[vec[0].value]).Pass? && CompleteElems(h, reg, rank, vec[1..], bound).Pass?
  {
    assert vec[0].value in Filled(vec);
  }

  /** An element vector passes exactly when every element is filled and every element's node passes. */
  lemma {:induction false} CompleteElemsPass(h: Heap, reg: set<Id>, rank: map<Id, nat>, vec: seq<Option<Id>>, bound: nat)
    requires Ranked(h, rank) && Below(h, rank, Filled(vec), bound)
    ensures CompleteElems(h, reg, rank, vec, bound).Pass? <==>
      && None !in vec
      && (forall c :: c in Filled(vec) ==> CompleteNode(h, reg, rank, c, rank[c]).Pass?)
    decreases |vec|
  {
    if vec != [] {
      var rest := vec[1..];
      assert vec == [vec[0]] + rest;
      if vec[0].Some? {
        var c0 := vec[0].value;
        assert Filled(vec) == [c0] + Filled(rest);
        ElemsFirst(h, reg, rank, vec, bound);
        CompleteElemsPass(h, reg, rank, rest, bound);
        assert (None in vec) == (None in rest);
      }
    }
  }

  /** An edge passes exactly when it is complete itself and every node it owns passes. */
  lemma CompleteEdgePass(h: Heap, reg: set<Id>, rank: map<Id, nat>, e: Edge, bound: nat)
    requires Ranked(h, rank) && Below(h, rank, Owned(e), bound)
    ensures CompleteEdge(h, reg, rank, e, bound).Pass? <==>
      EdgeComplete(h, reg, e) && forall c :: c in Owned(e) ==> CompleteNode(h, reg, rank, c, rank[c]).Pass?
  {
    match e
    case AnyEdge(vec) =>
      CompleteElemsPass(h, reg, rank, vec, bound);
    case ManyEdge(vec) =>
      CompleteElemsPass(h, reg, rank, vec, bound);
    case _ =>
  }

  /** A list of fields passes exactly when every field is complete and every node they own passes. */
  lemma {:induction false} CompleteFieldsPass(h: Heap, reg: set<Id>, rank: map<Id, nat>, fs: seq<Edge>, bound: nat)
    requires Ranked(h, rank) && Below(h, rank, OwnedFields(fs), bound)
    ensures CompleteFields(h, reg, rank, fs, bound).Pass? <==>
      && (forall i :: 0 <= i < |fs| ==> EdgeComplete(h, reg, fs[i]))
      && (forall c :: c in OwnedFields(fs) ==> CompleteNode(h, reg, rank, c, rank[c]).Pass?)
    decreases |fs|
  {
    if fs != [] {
      CompleteEdgePass(h, reg, rank, fs[0], bound);
      CompleteFieldsPass(h, reg, rank, fs[1..], bound);
      assert forall i :: 1 <= i < |fs| ==> fs[i] == fs[1..][i - 1];
      assert forall i :: 0 <= i < |fs| - 1 ==> fs[1..][i] == fs[i + 1];
    }
  }

  /**
   * check_complete of a node passes exactly when the node's own edges are
   * complete and every node it owns passes in turn.
   */
  lemma CompleteNodePass(h: Heap, reg: set<Id>, rank: map<Id, nat>, id: Id, bound: nat)
    requires Ranked(h, rank) && id in h && Below(h, rank, Children(h[id]), bound)
    ensures CompleteNode(h, reg, rank, id, bound).Pass? <==>
      NodeComplete(h, reg, id) && forall c :: c in Children(h[id]) ==> CompleteNode(h, reg, rank, c, rank[c]).Pass?
  {
    CompleteFieldsPass(h, reg, rank, h[id].fields, bound);
  }

  /** When every ranked node is complete, check_complete passes on every ranked node. */
  lemma {:induction false} CompleteWhenAllComplete(h: Heap, reg: set<Id>, rank: map<Id, nat>, x: Id)
    requires Ranked(h, rank) && x in rank
    requires forall y :: y in rank ==> y in h && NodeComplete(h, reg, y)
    ensures CompleteNode(h, reg, rank, x, rank[x]).Pass?
    decreases rank[x]
  {
    forall c | c in Children(h[x])
      ensures CompleteNode(h, reg, rank, c, rank[c]).Pass?
    {
      CompleteWhenAllComplete(h, reg, rank, c);
    }
    CompleteNodePass(h, reg, rank, x, rank[x]);
  }

  /** PointerMap::get on a live link target, raising for an unregistered one. */
  method CheckLink(t: Id, pm: PointerMap) returns (r: Outcome)
    requires pm.Valid()
    ensures r == LookUp(Seen(pm.order), t)
  {
    var got := pm.Get(t);
    if got.Err? {
      return Fail(got.error);
    }
    r := Pass;
  }

  /** A generated node's check_complete, against the nodes registered in pm. */
  method CheckCompleteNode(h: Heap, id: Id, pm: PointerMap, ghost rank: map<Id, nat>, ghost bound: nat) returns (r: Outcome)
    requires pm.Valid() && Ranked(h, rank) && id in h && Below(h, rank, Children(h[id]), bound)
    ensures r == CompleteNode(h, Seen(pm.order), rank, id, bound)
    decreases bound, 3
  {
    var fs := h[id].fields;
    var i := 0;
    while i < |fs|
      invariant 0 <= i <= |fs|
      invariant Below(h, rank, OwnedFields(fs[i..]), bound)
      invariant CompleteNode(h, Seen(pm.order), rank, id, bound) == CompleteFields(h, Seen(pm.order), rank, fs[i..], bound)
    {
      OwnedFieldsFrom(fs, i);
      assert fs[i..][0] == fs[i] && fs[i..][1..] == fs[i + 1..];
      r := CheckCompleteEdge(h, fs[i], pm, rank, bound);
      if r.Fail? {
        return;
      }
      i := i + 1;
    }
    assert fs[i..] == [];
    r := Pass;
  }

  /** check_complete of one edge container. */
  method CheckCompleteEdge(h: Heap, e: Edge, pm: PointerMap, ghost rank: map<Id, nat>, ghost bound: nat) returns (r: Outcome)
    requires pm.Valid() && Ranked(h, rank) && Below(h, rank, Owned(e), bound)
    ensures r == CompleteEdge(h, Seen(pm.order), rank, e, bound)
    decreases bound, 2
  {
    match e
    case MaybeEdge(v) =>
      if v.Some? {
        r := CheckCompleteNode(h, v.value, pm, rank, rank[v.value]);
      } else {
        r := Pass;
      }
    case OneEdge(v) =>
      r := CheckCompleteOne(h, v, pm, rank, bound);
    case AnyEdge(vec) =>
      r := CheckCompleteElems(h, vec, pm, rank, bound);
    case ManyEdge(vec) =>
      if |vec| == 0 {
        r := Fail(NotWellFormed(EmptyMany));
      } else {
        r := CheckCompleteElems(h, vec, pm, rank, bound);
      }
    case OptLinkEdge(t) =>
      if t.Some? && t.value in h {
        r := CheckLink(t.value, pm);
      } else {
        r := Pass;
      }
    case LinkEdge(t) =>
      if t.None? || t.value !in h {
        r := Fail(NotWellFormed(EmptyLink));
      } else {
        r := CheckLink(t.value, pm);
      }
  }

  /** One::check_complete. */
  method CheckCompleteOne(h: Heap, v: Option<Id>, pm: PointerMap, ghost rank: map<Id, nat>, ghost bound: nat) returns (r: Outcome)
    requires pm.Valid() && Ranked(h, rank) && (v.Some? ==> Below(h, rank, [v.value], bound))
    ensures r == CompleteOne(h, Seen(pm.order), rank, v, bound)
    decreases bound, 0
  {
    if v.None? {
      return Fail(NotWellFormed(EmptyOne));
    }
    r := CheckCompleteNode(h, v.value, pm, rank, rank[v.value]);
  }

  /** Any::check_complete: each element in order, stopping at the first exception. */
  method CheckCompleteElems(h: Heap, vec: seq<Option<Id>>, pm: PointerMap, ghost rank: map<Id, nat>, ghost bound: nat)
    returns (r: Outcome)
    requires pm.Valid() && Ranked(h, rank) && Below(h, rank, Filled(vec), bound)
    ensures r == CompleteElems(h, Seen(pm.order), rank, vec, bound)
    decreases bound, 1
  {
    var j := 0;
    while j < |vec|
      invariant 0 <= j <= |vec|
      invariant Below(h, rank, Filled(vec[j..]), bound)
      invariant CompleteElems(h, Seen(pm.order), rank, vec, bound) == CompleteElems(h, Seen(pm.order), rank, vec[j..], bound)
    {
      FilledFrom(vec, j);
      assert vec[j..][0] == vec[j] && vec[j..][1..] == vec[j + 1..];
      r := CheckCompleteOne(h, vec[j], pm, rank, bound);
      if r.Fail? {
        return;
      }
      j := j + 1;
    }
    assert vec[j..] == [];
    r := Pass;
  }
}

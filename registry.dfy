/**
 * PointerMap: the per-validation registry that gives every node reached through
 * owning edges a unique, stable sequence number, and detects duplicates and
 * links to unregistered nodes.
 */
module Registry {
  import opened Base
  import opened Tree

  /** The numbers of a registration order: the k-th identity registered gets number k. */
  ghost function Numbering(o: seq<Id>): map<Id, nat> {
    if o == [] then map[] else Numbering(o[..|o| - 1])[o[|o| - 1] := |o| - 1]
  }

  /** The numbering of an order is keyed by exactly the identities it lists. */
  lemma {:induction false} NumberingKeys(o: seq<Id>)
    ensures Numbering(o).Keys == Seen(o)
  {
    if o != [] {
      var init, last := o[..|o| - 1], o[|o| - 1];
      assert o == init + [last];
      NumberingKeys(init);
      assert Seen(o) == Seen(init) + {last};
    }
  }

  /** Without its last identity, a duplicate-free order stays duplicate-free and does not hold it. */
  lemma LastFresh(o: seq<Id>)
    requires Distinct(o) && o != []
    ensures Distinct(o[..|o| - 1]) && o[|o| - 1] !in Seen(o[..|o| - 1])
  {
    var init, last := o[..|o| - 1], o[|o| - 1];
    forall i, j | 0 <= i < j < |init| ensures init[i] != init[j] {
      assert init[i] == o[i] && init[j] == o[j];
    }
    forall k | 0 <= k < |init| ensures init[k] != last {
      assert init[k] == o[k];
    }
  }

  /** For a duplicate-free order, the numbering covers exactly its identities, one number each. */
  lemma {:induction false} NumberingOfDistinct(o: seq<Id>)
    requires Distinct(o)
    ensures Numbering(o).Keys == Seen(o)
    ensures |Numbering(o)| == |o|
    ensures forall k :: 0 <= k < |o| ==> Numbering(o)[o[k]] == k
  {
    NumberingKeys(o);
    if o != [] {
      var init, last := o[..|o| - 1], o[|o| - 1];
      LastFresh(o);
      NumberingKeys(init);
      NumberingOfDistinct(init);
      var m := Numbering(init);
      assert Numbering(o) == m[last := |o| - 1];
      assert last !in m;
      forall k | 0 <= k < |o|
        ensures Numbering(o)[o[k]] == k
      {
        if k < |o| - 1 {
          assert o[k] == init[k] && o[k] != last;
        }
      }
    }
  }

  /** Numbers are stable: registering more identities never renumbers earlier ones. */
  lemma NumberingStable(o: seq<Id>, o': seq<Id>)
    requires o <= o' && Distinct(o')
    ensures Distinct(o)
    ensures forall x :: x in Numbering(o) ==> x in Numbering(o') && Numbering(o')[x] == Numbering(o)[x]
  {
    assert forall k :: 0 <= k < |o| ==> o[k] == o'[k];
    NumberingOfDistinct(o);
    NumberingOfDistinct(o');
    forall x | x in Numbering(o)
      ensures x in Numbering(o') && Numbering(o')[x] == Numbering(o)[x]
    {
      var k :| 0 <= k < |o| && o[k] == x;
      assert o'[k] == x;
    }
  }

  class PointerMap {
    /** Registered node identities and their sequence numbers. */
    var numbers: map<Id, nat>
    /** The identities in the order they were registered. */
    ghost var order: seq<Id>

    ghost predicate Valid()
      reads this
    {
      Distinct(order) && numbers == Numbering(order)
    }

    constructor ()
      ensures Valid() && order == []
    {
      numbers := map[];
      order := [];
    }

    /**
     * Registers a node and returns its sequence number, the count registered
     * before it; a node registered before is a duplicate.
     */
    method Add(id: Id) returns (r: Result<nat>)
      requires Valid()
      modifies this
      ensures Valid()
      ensures id in old(order) ==> r == Err(NotWellFormed(Duplicate(id))) && order == old(order)
      ensures id !in old(order) ==> r == Ok(|old(order)|) && order == old(order) + [id]
    {
      NumberingOfDistinct(order);
      if id in numbers {
        return Err(NotWellFormed(Duplicate(id)));
      }
      r := Ok(|numbers|);
      numbers := numbers[id := |numbers|];
      order := order + [id];
      assert order[..|order| - 1] == old(order);
      assert Distinct(order) by {
        forall i, j | 0 <= i < j < |order|
          ensures order[i] != order[j]
        {
          if j == |order| - 1 {
            assert order[i] in Seen(old(order));
          }
        }
      }
    }

    /** The sequence number of a registered node; an unregistered node is unknown. */
    function Get(id: Id): (r: Result<nat>)
      reads this
      requires Valid()
      ensures r.Ok? <==> id in order
      ensures r.Ok? ==> r.value < |order| && order[r.value] == id
      ensures r.Err? ==> r.error == NotWellFormed(Unknown(id))
    {
      NumberingOfDistinct(order);
      if id in numbers then Ok(numbers[id]) else Err(NotWellFormed(Unknown(id)))
    }
  }
}

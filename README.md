# tree-gen `tree-base.hpp` in Dafny

This project models the runtime core of tree-gen, `include/tree-base.hpp`. Generated tree nodes are built from its
edge containers. Its validator decides whether a tree rooted at some node is well-formed.

- **Edge containers** (`edges.dfy`, module `Edges`).
  - `Maybe`/`One` is an owning reference to zero or one node.
  - `Any`/`Many` is an ordered vector of `One` elements.
  - `OptLink`/`Link` is a weak reference. It is empty when never set, when reset, or when its target has expired.
  - Each pair is one `class` with a `const required` flag; the required form is `One`, `Many` or `Link`.
  - `AsEdge` shows the field as the validator sees it. `required` selects the edge kind; lemmas in `completeness.dfy` show that an empty field is an error exactly when it is required.
  - The methods change `val` or `vec` in place, as the C++ does.
  - Positional insert and erase are specified by the functions `Added`/`Removed`.
  - Copy and clone are specified by `Duplicated`.
  - Container equality is specified by `RefEq`/`VecEq`.
- **Nodes and the heap** (`tree.dfy`, module `Tree`).
  - A node is its variant tag plus its edge fields in declaration order.
  - The heap maps node identities to live nodes. A weak link whose target is not in the heap has expired.
  - `Children`/`Owned` list the nodes a node or an edge owns, in traversal order.
- **The registry** (`registry.dfy`, class `Registry.PointerMap`).
  - It maps each registered identity to its sequence number.
  - A ghost `order` records the registration order.
  - The invariant ties the numbers to that order.
- **Phase one**, `find_reachable` (`reachability.dfy`).
  - Loop-and-recursion methods thread the `PointerMap` through the owning edges.
  - Each is proved equal to the ghost traversal `WalkId`/`WalkIds`, which returns the registration order and the duplicate that stopped it, if any.
  - Lemmas prove what the traversal registers: each node once, every node rooted in the start, children after their owner, and every child accounted for.
- **Phase two**, `check_complete` (`completeness.dfy`).
  - The methods read the registry.
  - Each is proved equal to a ghost function whose termination is carried by a rank map: a witness that ownership has no cycles.
  - Lemmas characterise passing as "every edge complete and every owned node passes".
- **`check_well_formed` / `is_well_formed`** (`validator.dfy`).
  - `OwnershipTree` defines declaratively what it means for the nodes below a root to form an ownership tree.
  - `WellFormed` adds that every required edge is filled and every link resolves inside the tree.
  - `CheckWellFormed` is proved to raise a duplicate exactly when ownership is not a tree, and to pass exactly when the tree is well-formed.
- **Worked trees** (`scenarios.dfy`).
  - A root owns a `Many` of A and B, and A links to B; this tree is well-formed.
  - Clearing the `Many` breaks it, as does redirecting the link to a node outside the tree, linking back to the root, or owning A twice.

The bodies of `PointerMap::add_raw`/`get_raw` and of `check_well_formed`/`is_well_formed` live in `tree-base.cpp`, which
is not part of this model; they are modelled from their declarations and doc comments. A generated node's
`find_reachable`/`check_complete` visits its edge fields in declaration order.

## Model

| member | source | states |
|---|---|---|
| Edges.RefEq | include/tree-base.hpp:384-390 | two filled references are equal iff their nodes are; otherwise iff both are empty |
| Edges.VecEqIsEquivalence | include/tree-base.hpp:717-719 | element-wise, order-sensitive container equality is reflexive, symmetric and transitive whenever node equality is |
| Edges.AddIndex | include/tree-base.hpp:551-558 | the insertion index is never past the end |
| Edges.RemoveIndex | include/tree-base.hpp:605-607 | the erased index is always a valid index of a non-empty vector |
| Edges.AddedShape | include/tree-base.hpp:547-559 | adding a filled reference grows the vector by one, places it at pos when 0 <= pos < size and at the back otherwise, keeps every other element in order, and adds exactly it to the multiset |
| Edges.RemovedShape | include/tree-base.hpp:601-609 | removing from a non-empty vector erases exactly the element at pos (or the last one when pos is not an index) and keeps the rest in order |
| Edges.AddThenRemove | include/tree-base.hpp:547-609 | removing at the index where a filled element was added restores the original vector |
| Edges.RemoveThenAdd | include/tree-base.hpp:547-609 | adding an erased filled element back at its index restores the original vector |
| Edges.CopyOf | include/tree-base.hpp:500-519 | a copy or clone of a reference is filled iff the original is |
| Edges.DuplicatedShape | include/tree-base.hpp:1036-1055 | a collection copy holds the duplicate of each filled element, in the original order, and nothing for empty elements |
| Edges.CopyIsEqual | include/tree-base.hpp:1036-1055 | copying a collection without empty elements keeps its size and compares equal when the node duplicate does |
| Edges.Maybe.Set | include/tree-base.hpp:200-254 | the reference becomes the given one; a null reference clears it |
| Edges.Maybe.Reset | include/tree-base.hpp:276-281 | the reference becomes empty |
| Edges.Maybe.IsEmpty | include/tree-base.hpp:283-288 | a reference is empty exactly when it owns no node |
| Edges.Maybe.Size | include/tree-base.hpp:290-295 | the size is 0 or 1, and 0 exactly when empty |
| Edges.Maybe.Deref | include/tree-base.hpp:297-307 | dereferencing raises out_of_range exactly when empty, and otherwise yields the held node |
| Edges.Maybe.Equals | include/tree-base.hpp:384-390 | two empty references are equal, an empty and a filled one are not, two filled ones are equal iff their nodes are |
| Edges.Maybe.As | include/tree-base.hpp:361-369 | a cast yields the same node when its variant is accepted, and an empty reference otherwise |
| Edges.Maybe.AsEdge | include/tree-base.hpp:444-495 | a required reference is seen as a One, else as a Maybe, holding the same reference; it owns the node held, if any (what the check makes of it: Completeness.EmptyMaybeChecked, Completeness.FilledMaybeChecked) |
| Edges.Any.Add | include/tree-base.hpp:543-559 | the vector becomes Added(old, ob, pos): unchanged for an empty ob, else ob inserted at the clamped position |
| Edges.Any.Extend | include/tree-base.hpp:590-595 | the other collection's elements are appended in order after the existing ones, and the other collection is unchanged |
| Edges.Any.Remove | include/tree-base.hpp:597-609 | the vector becomes Removed(old, pos): unchanged when empty, else one element erased at the clamped position |
| Edges.Any.Reset | include/tree-base.hpp:611-616 | the collection becomes empty |
| Edges.Any.IsEmpty | include/tree-base.hpp:618-623 | a collection is empty exactly when it holds no element, and then it owns nothing |
| Edges.Any.Size | include/tree-base.hpp:625-630 | the size is 0 exactly when empty, never below the number of nodes owned, and equal to it exactly when no element is empty |
| Edges.Any.At | include/tree-base.hpp:648-654 | at(i) succeeds iff i < size and then returns element i; otherwise it raises out_of_range |
| Edges.Any.Back | include/tree-base.hpp:664-674 | back() is an empty reference for an empty collection, else the element at index size - 1 |
| Edges.Any.Equals | include/tree-base.hpp:714-719 | two collections are equal exactly when they have the same size and their elements are pairwise equal, in order; two empty ones are equal, and an empty one equals only an empty one |
| Edges.Any.AsEdge | include/tree-base.hpp:774-797 | a required collection is seen as a Many, else as an Any, holding the same elements; it owns its filled elements (what the check makes of it: Completeness.EmptyAnyChecked, Completeness.FilledAnyChecked) |
| Edges.Any.CopyWith | include/tree-base.hpp:1033-1055 | copy/clone returns a fresh Many holding the duplicate of every filled element, in order |
| Edges.OptLink.Set | include/tree-base.hpp:841-871 | the link observes the node the given reference holds, or is cleared by an empty one |
| Edges.OptLink.Reset | include/tree-base.hpp:873-878 | the link is cleared, and empty in every heap |
| Edges.OptLink.Lock | include/tree-base.hpp:944-956 | locking yields the target exactly while it is alive, and nothing otherwise |
| Edges.OptLink.IsEmpty | include/tree-base.hpp:880-885 | a link is empty iff it was never set, was reset, or its target has expired |
| Edges.OptLink.Size | include/tree-base.hpp:887-892 | the size is 0 or 1, and 0 exactly when empty |
| Edges.OptLink.Deref | include/tree-base.hpp:919-928 | dereferencing raises out_of_range exactly when the link is empty or expired, and otherwise yields the live target |
| Edges.OptLink.Equals | include/tree-base.hpp:968-979 | two live links are equal iff their targets are; two empty or expired links are equal; an empty and a live one are not |
| Edges.OptLink.LinksTo | include/tree-base.hpp:988-994 | a live link links to exactly its target when the target's variant is accepted; an empty or expired link links to any empty reference or failed cast |
| Edges.OptLink.As | include/tree-base.hpp:958-966 | a cast yields the live target when its variant is accepted, and an empty reference when expired or on mismatch |
| Edges.OptLink.AsEdge | include/tree-base.hpp:1061-1112 | a required link is seen as a Link, else as an OptLink, with the same target; a link owns nothing (what the check makes of it: Completeness.EmptyOptLinkChecked, Completeness.LiveOptLinkChecked) |
| Registry.NumberingKeys | include/tree-base.hpp:54-58 | the numbering is keyed by exactly the registered identities |
| Registry.NumberingOfDistinct | include/tree-base.hpp:47-58 | without duplicates, every registered identity gets its own number, its registration position |
| Registry.NumberingStable | include/tree-base.hpp:47-50 | registering more identities never renumbers an earlier one |
| Registry.PointerMap.Add | include/tree-base.hpp:1114-1121 | registering an identity already registered raises NotWellFormed(Duplicate) and changes nothing; otherwise the identity gets the next number and is appended |
| Registry.PointerMap.Get | include/tree-base.hpp:1123-1139 | lookup succeeds iff the identity was registered and returns its number; otherwise it raises NotWellFormed(Unknown) |
| Reachability.WalkId | include/tree-base.hpp:405-410 | the traversal from one owned node only extends the registration order, and registers only live nodes |
| Reachability.WalkIds | include/tree-base.hpp:734-738 | the traversal of a list of owned nodes only extends the registration order, and registers only live nodes |
| Reachability.WalkIdDistinct | include/tree-base.hpp:399-404 | starting from a duplicate-free registry, the traversal keeps it duplicate-free |
| Reachability.WalkIdsDistinct | include/tree-base.hpp:728-733 | the same for a list of owned nodes |
| Reachability.WalkIdCount | include/tree-base.hpp:399-404 | a completed traversal registers the node plus the children of every node it registered, each once; a stopped one has met its duplicate twice |
| Reachability.WalkIdsCount | include/tree-base.hpp:728-733 | the same for a list of owned nodes |
| Reachability.WalkIdRooted | include/tree-base.hpp:405-410 | every node registered is the start node or a child of a node registered before it |
| Reachability.WalkIdsRooted | include/tree-base.hpp:734-738 | every node registered is one of the given nodes or a child of a node registered before it |
| Reachability.WalkIdPreorder | include/tree-base.hpp:405-410 | in a completed traversal every registered node has all its children registered after it |
| Reachability.WalkIdsPreorder | include/tree-base.hpp:734-738 | the same for a list of owned nodes |
| Reachability.WalkAppend | include/tree-base.hpp:734-738 | traversing a concatenation traverses the first part, then the second from where the first ended, unless the first stopped |
| Reachability.FindReachableMaybe | include/tree-base.hpp:405-410 | registers the pointee, then traverses it; the registry and the exception are those of WalkId |
| Reachability.FindReachableNode | include/tree-base.hpp:104-110 | a node's fields in declaration order; the registry and the exception are those of WalkIds over its children |
| Reachability.FindReachableEdge | include/tree-base.hpp:1002-1003 | each container kind registers what it owns; OptLink and Link register nothing |
| Reachability.FindReachableOne | include/tree-base.hpp:405-410 | an empty reference registers nothing; a filled one behaves as FindReachableMaybe |
| Reachability.FindReachableElems | include/tree-base.hpp:734-738 | every element in order, stopping at the first duplicate, as WalkIds over the filled elements |
| Completeness.LookUp | include/tree-base.hpp:1132-1139 | a link target passes iff it is registered, and otherwise raises NotWellFormed(Unknown) |
| Completeness.CompleteNode | include/tree-base.hpp:112-122 | a node's completeness check never raises a duplicate, only NotWellFormed for an empty edge or unknown target |
| Completeness.CompleteEdge | include/tree-base.hpp:412-426 | an edge's check raises only NotWellFormed, never a duplicate |
| Completeness.CompleteOne | include/tree-base.hpp:486-493 | an empty One raises NotWellFormed(EmptyOne); a filled one checks its node |
| Completeness.EmptyMaybeChecked | include/tree-base.hpp:486-493 | an empty reference field raises NotWellFormed(EmptyOne) exactly when it is required (a One), and passes as a Maybe |
| Completeness.FilledMaybeChecked | include/tree-base.hpp:422-425 | a filled reference field checks the node it holds, whether it is a One or a Maybe |
| Completeness.EmptyAnyChecked | include/tree-base.hpp:787-794 | an empty collection field raises NotWellFormed(EmptyMany) exactly when it is required (a Many), and passes as an Any |
| Completeness.FilledAnyChecked | include/tree-base.hpp:787-794 | a non-empty collection field checks its elements in order, whether it is a Many or an Any |
| Completeness.EmptyOptLinkChecked | include/tree-base.hpp:1103-1108 | an empty or expired link field raises NotWellFormed(EmptyLink) exactly when it is required (a Link), and passes as an OptLink |
| Completeness.LiveOptLinkChecked | include/tree-base.hpp:1015-1019 | a live link field looks its target up in the registry, whether it is a Link or an OptLink |
| Completeness.CompleteElems | include/tree-base.hpp:750-754 | checking a vector of One elements raises only NotWellFormed |
| Completeness.ElemsFirst | include/tree-base.hpp:750-754 | a vector with a filled first element passes iff that node passes and the rest passes |
| Completeness.CompleteElemsPass | include/tree-base.hpp:740-754 | an Any passes iff none of its elements is empty and every owned node passes |
| Completeness.CompleteEdgePass | include/tree-base.hpp:112-122 | an edge passes iff it is complete itself (One, Many, Link filled; OptLink and Link targets registered) and every node it owns passes |
| Completeness.CompleteFieldsPass | include/tree-base.hpp:112-122 | a list of fields passes iff every field is complete and every owned node passes |
| Completeness.CompleteNodePass | include/tree-base.hpp:112-122 | a node passes iff its own edges are complete and every node it owns passes |
| Completeness.CompleteWhenAllComplete | include/tree-base.hpp:112-122 | when every ranked node is complete, the check passes on every ranked node |
| Completeness.CheckLink | include/tree-base.hpp:1015-1019 | a live link target is looked up in the registry, raising for an unregistered one |
| Completeness.CheckCompleteNode | include/tree-base.hpp:112-122 | equals CompleteNode against the registered nodes |
| Completeness.CheckCompleteEdge | include/tree-base.hpp:1103-1110 | equals CompleteEdge: Many raises EmptyMany when empty, Link raises EmptyLink when empty or expired, live targets are looked up |
| Completeness.CheckCompleteOne | include/tree-base.hpp:486-493 | equals CompleteOne |
| Completeness.CheckCompleteElems | include/tree-base.hpp:750-754 | equals CompleteElems: every element in order, stopping at the first exception |
| Validator.WalkIsTree | include/tree-base.hpp:124-134 | a phase-one traversal that finds no duplicate lists an ownership tree, in preorder |
| Validator.TreeClosed | include/tree-base.hpp:124-134 | an ownership tree holds the root's children and every child of its nodes |
| Validator.RootedWithin | include/tree-base.hpp:124-134 | every node of a rooted order lies in any set that holds the start nodes and is closed under children |
| Validator.RootedInTree | include/tree-base.hpp:124-134 | any order rooted in the same children only holds nodes of the ownership tree |
| Validator.TreeUnique | include/tree-base.hpp:124-134 | two ownership trees below the same children have the same nodes |
| Validator.TreeMeansNoDuplicate | include/tree-base.hpp:128-131 | when ownership below the root is a tree, phase one finds no duplicate |
| Validator.DuplicateIffNotTree | include/tree-base.hpp:124-134 | phase one finds a duplicate iff ownership below the root is not a tree |
| Validator.RankOf | include/tree-base.hpp:124-134 | the reversed registration position ranks each tree node |
| Validator.RankedByWalk | include/tree-base.hpp:124-134 | in a preorder registration every owned child ranks below its owner, so the completeness check terminates |
| Validator.PassReachesAll | include/tree-base.hpp:124-134 | when the root's children pass the check, every node of the tree is complete |
| Validator.CompleteIffAllComplete | include/tree-base.hpp:124-134 | the completeness check on the root passes iff the root and every tree node are complete |
| Validator.CompleteTransfer | include/tree-base.hpp:124-134 | completeness of every tree node does not depend on which listing of the tree is used |
| Validator.WellFormedByWalk | include/tree-base.hpp:124-134 | well-formedness is decided by any one listing of the ownership tree |
| Validator.TreeOrderIsTree | include/tree-base.hpp:124-134 | over an ownership tree, the phase-one registration order lists the tree, each node before the nodes it owns |
| Validator.TreeOrderRanks | include/tree-base.hpp:124-134 | over an ownership tree, ranking by the phase-one order makes every owned node rank below its owner |
| Validator.PhaseTwo | include/tree-base.hpp:124-134 | the completeness check of the root against the registry of phase one raises only NotWellFormed, never a duplicate |
| Validator.PhaseTwoDecides | include/tree-base.hpp:124-134 | over an ownership tree, phase two passes exactly when the tree is well-formed |
| Validator.PhaseTwoIs | include/tree-base.hpp:112-134 | phase two is the node-level check_complete of the root, against the phase-one registry, ranked by the phase-one order |
| Validator.PhaseTwoUnfold | include/tree-base.hpp:112-134 | the same, handing out the registry (the nodes phase one registered), the ranking and its bound |
| Validator.CheckWellFormed | include/tree-base.hpp:124-134 | only NotWellFormed is raised; a duplicate is raised iff ownership below the root is not a tree; it passes iff the tree is well-formed; over a tree the outcome is exactly phase two's |
| Validator.IsWellFormed | include/tree-base.hpp:136-145 | true iff the tree below the root is well-formed |
| Scenarios.SampleWellFormed | include/tree-base.hpp:124-134 | a root owning Many [A, B], where A links to B, is well-formed |
| Scenarios.PairWellFormed | include/tree-base.hpp:124-134 | a root whose only field is Many [x, y], with x != y, x's only field a Link to y and y without fields, is well-formed |
| Scenarios.EmptyManyFails | include/tree-base.hpp:787-794 | a node whose only field is an empty Many raises NotWellFormed(EmptyMany) |
| Scenarios.LinkNodeFails | include/tree-base.hpp:1103-1110 | a node whose only field is a Link to a live, unregistered node raises NotWellFormed(Unknown) for that node |
| Scenarios.PairLinkFails | include/tree-base.hpp:750-754 | a root whose only field is Many [x, y], with x's only field a Link to a live, unregistered t, raises NotWellFormed(Unknown(t)) while checking x |
| Scenarios.ClearedRaises | include/tree-base.hpp:787-794 | a root whose only field is an empty Many owns a (trivial) tree, and phase two raises NotWellFormed(EmptyMany); it is not well-formed |
| Scenarios.PairLinkRaises | include/tree-base.hpp:1103-1110 | a root whose only field is Many [x, y], with x != y, x's only field a Link to a live t outside {x, y} and y without fields: ownership is a tree, phase two raises NotWellFormed(Unknown(t)), and it is not well-formed |
| Scenarios.ClearedManyRejected | include/tree-base.hpp:787-794 | clearing that Many leaves ownership a tree, and check_well_formed raises NotWellFormed(EmptyMany) |
| Scenarios.DanglingLinkRejected | include/tree-base.hpp:1103-1110 | redirecting A's link to the live node C outside the tree: check_well_formed raises NotWellFormed(Unknown(C)) |
| Scenarios.SharedOwnershipRejected | include/tree-base.hpp:399-404 | putting A twice in the Many makes ownership not a tree |
| Scenarios.LinkToRootRejected | include/tree-base.hpp:124-134 | validating from a root node, a link back to that root is dangling, because the root is never registered: check_well_formed raises NotWellFormed(Unknown(root)) |

## Left out

- Annotations and CBOR serialisation of the `Annotatable` base are not modelled: they sit in another header and involve floating point.
- Reference counting and destruction timing of `shared_ptr`/`weak_ptr` are not modelled. Liveness is the set of heap keys. `Closed(h)` assumes that an owned node is alive, which shared ownership guarantees.
- `set_raw`/`add_raw` raw-pointer ownership transfer is not modelled: it is foreign-memory ownership.
- `make`/`emplace` constructor forwarding is not modelled: it is constructor plumbing.
- The `operator=` overloads are not modelled: they fall off the end without a return, which is undefined behaviour.
- The `operator!=` overloads are not modelled separately: each is the negation of `Equals`.
- The templated `visit` is not modelled: it is generic over a visitor that is not shown.
- Node equality and the node-level `copy()`/`clone()` belong to generated code. They are the parameters `eq` and `dup`.
- The C++ type hierarchy behind `as<S>()` and `dynamic_pointer_cast` is not modelled. A node's variant is a tag, and a cast accepts a set of tags.
- `typeid` names in error messages are not modelled. An error carries the kind of violation and the node instead.
- Edges.Any.At: returns the element by value, so writing through the mutable reference that `at()` returns is not modelled.
- Edges.Any.Extend: requires that the other collection is a different object, because extending a vector with its own iterators is undefined behaviour in the C++ code.
- Registry.PointerMap.Add: the body of `add_raw` is in `tree-base.cpp`, which is not part of this model. The sequence number is taken to be the count of nodes registered before.
- Validator.CheckWellFormed: models the call on a node only. `check_well_formed` is a final member of `Completable` (include/tree-base.hpp:134, 145), so it can also be called on a `Maybe`/`One`, `Any`/`Many` or `OptLink`/`Link` container; those calls are not modelled. On a `One`, `Maybe::find_reachable` registers the pointee itself, so a link back to it would resolve there, unlike `Scenarios.LinkToRootRejected`.
- Completeness.CheckCompleteNode, Completeness.CheckCompleteEdge, Completeness.CheckCompleteOne, Completeness.CheckCompleteElems: require a rank map (`Ranked`) witnessing that ownership has no cycle. A standalone `check_complete` on an ownership cycle recurses without end in the C++ code (include/tree-base.hpp:422-425, 486-493); only phase one's duplicate detection protects `check_well_formed` from this.
- Validator.CheckWellFormed: requires a live root and a closed heap. The body in `tree-base.cpp` is not part of this model. The root is not registered itself, matching a node-level `find_reachable` that registers only what the root's fields own.

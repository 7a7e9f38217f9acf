# DLR: a double linked ring, modelled and proved in Dafny

This project models `DLR<Key, Info>` from `DLR.h`: a generic circular,
doubly linked list of (key, info) nodes. It covers the ring's Iterator and
its queries, insertions, removals, clearing, copy-assignment and equality.
One node is the anchor, the source's `any`. Every traversal starts there and
walks `next` until it is back at the anchor. Keys may repeat. The
key-addressed operations pick the `occurrence`-th node carrying the key,
counted from 1 in traversal order from the anchor.

## How the model is built

- `wrappers.dfy` (module `Wrappers`): an `Option` type.
- `ring_seq.dfy` (module `RingSeq`): the abstract view of a ring. This is
  the sequence of `Entry(key, info)` read from the anchor. The module also
  holds the specification functions the operations are proved against:
  - `CountKey`, `HasKey` and `NthMatch` for `howMany`, `exists` and `find`;
  - `InsertAt` and `RemoveRotate` for insertion and removal;
  - `KeysOf` for equality;
  - `Succ`, `Pred`, `Forward` and `Backward` for cursor moves.
- `ring_links.dfy` (module `RingLinks`): the nodes as values.
  - `nodes` maps a node id (standing for a `Node*`) to `Node(key, info, next, previous)`.
  - `order` lists the node ids one walk meets from the anchor.
  - `index` is the inverse of `order`.
  - `RingInv` says the links follow `order` round a single cycle, and that
    every node is listed exactly once, starting at the anchor. So
    `previous` undoes `next`, and a lone node links to itself.
  - `LinkIn` and `LinkOut` are the pointer rewirings the source performs.
  - The splice lemmas prove that these rewirings keep `RingInv`, and say
    how `order` and the entries change.
- `dlr.dfy` (module `DLR`): the class `Ring`, which is `DLR<Key, Info>`.
  - Its fields are `nodes`, `anchor` (`any`) and `nextId`. `nextId` is the
    id the next `new Node` receives.
  - It also has the ghost fields `order` and `index`.
  - Every operation is a method or function with a contract, proved against
    `Valid()` and the `RingSeq` functions. The lemmas `LinksAt` and
    `NextPreviousInverse` state what `Valid()` gives about the links.
  - The Iterator is the value `Iterator(travel: Option<NodeId>)`, where
    `None` is the null cursor. Its operators are `Ring` members, because
    following a link needs the arena.
- `scenarios.dfy` (module `Scenarios`): client code that checks the
  documented behaviours against the contracts, on concrete rings and on
  arbitrary ones:
  - pushBack order and occurrence resolution;
  - insertion by key;
  - the anchor moving on removal, and removing the only node;
  - order-sensitive equality;
  - copying, self-assignment, and no change after a failed removal;
  - clearing twice;
  - a cursor going once round the ring;
  - the two findings below.

### Decisions where the code and its stated intent differ

- `remove(Iterator)` always moves the anchor to the removed node's
  successor, whichever node is removed (DLR.h:725). The header calls `any`
  the "first" element, by default the first one added (DLR.h:24). That reads
  as if the anchor should move only when it is the node removed, but DLR.h
  says nothing explicit about this. The model follows the code: after any
  removal the ring is read from the successor (`RemoveRotate`).
- `insertAfter(key, …)` and `insertBefore(key, …)` pass the cursor overload
  its arguments in the wrong order (DLR.h:595, DLR.h:648). Once
  instantiated, that call does not type-check. The model does what is
  evidently intended: it inserts at `find(key, occurrence)`.
- The occurrence guards compare the unsigned `howMany` count with the signed
  `occurrence`. C++ converts `occurrence` to unsigned first, and the model
  does so too (`AsUnsigned`). For `occurrence <= 0` the result is always
  "no change": a negative value becomes large and fails the guard, and 0
  passes the guards but `find` returns a null cursor.

## Model

| member | source | states |
|---|---|---|
| RingSeq.HasKeyIffCounted | DLR.h:440-483 | `exists(key)` and `howMany(key) > 0` agree in both directions |
| RingSeq.NthMatch | DLR.h:392-408 | an `occurrence`-th match exists iff 1 <= occurrence <= number of matches; the position found carries the key and has exactly occurrence-1 matches before it |
| RingSeq.NthMatchIsTheMatch | DLR.h:399-402 | conversely, a match with exactly occurrence-1 matches before it is the one find stops at |
| RingSeq.CountKeyInsert | DLR.h:613-617 | inserting a node raises the count of key k by one exactly when the new key is k |
| RingSeq.CountKeyRemove | DLR.h:723-726 | unlinking a node lowers the count of key k by one exactly when the removed key is k |
| RingSeq.RemoveRotateKeepsCyclicOrder | DLR.h:723-725 | after a removal the other nodes keep their cyclic order, read from the removed node's successor, and the multiset of entries loses exactly the removed one |
| RingSeq.ForwardFullCycle | DLR.h:144-150 | moving length() steps along next on a ring returns to the start position |
| RingSeq.BackwardFullCycle | DLR.h:152-158 | moving length() steps along previous returns to the start position |
| RingSeq.BackwardUndoesForward | DLR.h:144-158 | moving back m steps undoes moving forward m steps |
| RingLinks.Step | DLR.h:399-405 | one step of a traversal: the next of position j is position j+1, and it is the anchor exactly when j is the last position, so the do-while loops stop after one cycle |
| RingLinks.Singleton | DLR.h:553-557 | the first node pushed onto an empty ring becomes the anchor, links to itself both ways and is the whole ring |
| RingLinks.SpliceInBack | DLR.h:561-565 | pushBack's rewiring keeps the ring invariant, appends the new node to the traversal and keeps the anchor |
| RingLinks.SpliceIn | DLR.h:613-617 | linking a fresh node between a node and its successor keeps the ring invariant, lists the new node right after that node and keeps the anchor (also the rewiring of DLR.h:662-666) |
| RingLinks.SpliceInEntries | DLR.h:613-617 | that splice inserts the new entry after position pos and keeps every other entry |
| RingLinks.SpliceOut | DLR.h:723-726 | unlinking a node of a ring of two or more keeps the ring invariant, with the anchor moved to the removed node's successor and the rest read from there |
| RingLinks.SpliceOutEntries | DLR.h:723-726 | that unlinking drops the removed entry and rotates the rest so it starts at the successor |
| RingLinks.Sole | DLR.h:716-719 | the anchor is its own successor iff the ring has one node; deleting it leaves a valid empty ring |
| RingLinks.Release | DLR.h:745-752 | one pass of clear's loop: the node at position k is still there, its next is position k+1, which is the anchor exactly from the last position; releasing it keeps the anchor and the positions from k+1 on; on a one-node ring releasing the anchor leaves nothing |
| RingLinks.ReleaseDone | DLR.h:752-755 | when clear's walk is back at the anchor, only the anchor is left |
| DLR.AsUnsigned | DLR.h:588 | C++'s conversion of the signed occurrence to a 32-bit unsigned value: unchanged when nonnegative, at least 2^31 and congruent modulo 2^32 when negative |
| DLR.Ring.LinksAt | DLR.h:45-49 | a node's next and previous are its successor and predecessor in traversal order, and both are nodes of the ring |
| DLR.Ring.NextPreviousInverse | DLR.h:553-565 | for every node, next.previous and previous.next are the node itself, and a lone node's next and previous are itself |
| DLR.Ring.constructor | DLR.h:230-232 | a new ring is valid, empty and has no anchor |
| DLR.Ring.Copy | DLR.h:240-243 | the copy holds the same entries, in the same order, as the source |
| DLR.Ring.Begin | DLR.h:214-216 | begin() is null on an empty ring and otherwise stands on the first node of the traversal |
| DLR.Ring.Next | DLR.h:122-131 | ++ moves the cursor to the successor of its node in traversal order |
| DLR.Ring.Prev | DLR.h:133-142 | -- moves the cursor to the predecessor of its node in traversal order |
| DLR.Ring.Advance | DLR.h:144-150 | it + m, for m > 0, stands on the node m steps along next, wrapping round; for m <= 0 it is the same cursor |
| DLR.Ring.Retreat | DLR.h:152-158 | it - m, for m > 0, stands on the node m steps along previous, wrapping round; for m <= 0 it is the same cursor |
| DLR.Ring.Deref | DLR.h:164-178 | *it is the (key, info) entry at the cursor's position in the traversal |
| DLR.Ring.Find | DLR.h:392-409 | (occurrence defaults to 1) find returns a cursor on the occurrence-th node with the key, counted from the anchor, and null on an empty ring, with too few matches or with occurrence < 1 |
| DLR.Ring.Exists | DLR.h:440-458 | exists is true iff some node carries the key |
| DLR.Ring.HowMany | DLR.h:465-483 | howMany is the number of nodes carrying the key over one cycle |
| DLR.Ring.IsEmpty | DLR.h:490-494 | isEmpty is true iff the ring has no entries |
| DLR.Ring.Length | DLR.h:502-518 | length is the number of nodes in one walk round, and it is 0 iff isEmpty |
| DLR.Ring.PushBack | DLR.h:548-567 | the entries become old ++ [(k, v)] with the anchor kept; on an empty ring the new node becomes the anchor and links to itself; the ring stays valid |
| DLR.Ring.InsertAfter | DLR.h:606-622 | a null cursor returns false and changes nothing; otherwise returns true and (k, v) goes right after the cursor's entry, other entries and the anchor unchanged |
| DLR.Ring.InsertBefore | DLR.h:657-670 | a null cursor returns false and changes nothing; otherwise returns true and (k, v) goes right before the cursor's entry, at the end of the traversal when the cursor is on the anchor |
| DLR.Ring.Remove | DLR.h:707-728 | a null cursor changes nothing; a one-node ring becomes empty; otherwise exactly that node leaves the arena, the rest keep their cyclic order, and the anchor becomes its successor |
| DLR.Ring.Clear | DLR.h:737-759 | (corrected) the ring becomes empty and valid, and every node is released exactly once: the anchor's successors in order, then the anchor; an empty ring releases nothing |
| DLR.Ring.ClearAsWritten | DLR.h:737-759 | the do-while as written: the ring becomes empty; with two or more nodes each is released once, and a one-node ring releases its node twice |
| DLR.Ring.InsertAfterKey | DLR.h:576-599 | succeeds iff the occurrence-th match exists, and then inserts (k, v) right after it: the new node id goes right after the match in the traversal order and every other node keeps its id, so cursors held across the call stay valid; otherwise returns false and changes nothing (empty ring, absent key, too few matches, occurrence < 1) |
| DLR.Ring.InsertBeforeKey | DLR.h:629-650 | succeeds iff the occurrence-th match exists, and then inserts (k, v) right before it: the new node id goes right before the match in the traversal order, or at the end when the match is the anchor, and every other node keeps its id; otherwise returns false and changes nothing |
| DLR.Ring.RemoveKey | DLR.h:677-700 | if the occurrence-th match exists, exactly that node leaves the arena, the other node ids keep their cyclic order read from its successor, which becomes the anchor (no anchor once the ring is empty), and the entries change the same way; otherwise changes nothing |
| DLR.Ring.Assign | DLR.h:416-433 | (corrected: it calls the corrected clear) assigning a ring to itself changes nothing; otherwise the target's entries become the source's, read from the source's anchor, and the source is unchanged |
| DLR.Ring.Equal | DLR.h:766-793 | (corrected) true iff both rings hold the same entries in the same order from their anchors, keys and infos compared |
| DLR.Ring.EqualAsWritten | DLR.h:766-793 | the comparison as written: true iff both rings hold the same keys in the same order; infos play no part |
| DLR.Ring.NotEqual | DLR.h:800-804 | (corrected) != is true iff the rings' entry sequences differ: the negation of the corrected == |
| DLR.Ring.NotEqualAsWritten | DLR.h:800-804 | != as written negates the == of DLR.h, so it is true iff the rings' key sequences differ; infos play no part |
| Scenarios.PushBackOrder | DLR.h:548-567 | pushBack (a,1), (b,2), (c,3) on an empty ring gives [(a,1),(b,2),(c,3)], with (a,1) at the anchor |
| Scenarios.OccurrenceResolution | DLR.h:392-408 | on [(a,1),(b,2),(a,3),(a,4)] find(a,2) is (a,3), find(a,4) is null and howMany(a) is 3 |
| Scenarios.InsertAfterB | DLR.h:576-599 | insertAfter(b, x, 9) on [(a,1),(b,2),(c,3)] gives [(a,1),(b,2),(x,9),(c,3)] |
| Scenarios.InsertBeforeB | DLR.h:629-650 | insertBefore(b, x, 9) on [(a,1),(b,2),(c,3)] gives [(a,1),(x,9),(b,2),(c,3)] |
| Scenarios.BeforeAnchorIsPushBack | DLR.h:657-670 | inserting before the anchor gives the same ring as pushBack |
| Scenarios.CursorSurvivesInsert | DLR.h:593-594 | a cursor on (b,2) taken before insertAfter(a, x, 9) on [(a,1),(b,2),(c,3)] still reads (b,2) afterwards, and its next reads (c,3) |
| Scenarios.AnchorShift | DLR.h:723-725 | remove(a), with the default occurrence 1, on [(a,1),(b,2),(c,3)] leaves two nodes with the anchor on (b,2) |
| Scenarios.SoleNodeRemoval | DLR.h:716-719 | removing the only node leaves isEmpty() true and length() 0 |
| Scenarios.OrderSensitiveEquality | DLR.h:780-789 | [(a,1),(b,2)] == [(b,2),(a,1)] is false and != is true |
| Scenarios.CopyRoundTrip | DLR.h:240-243 | a copy is == to its source, and a pushBack on the copy leaves the source == to its former contents |
| Scenarios.SelfAssignment | DLR.h:418-419 | r = r leaves r == to what it was |
| Scenarios.FailureNonMutation | DLR.h:690-694 | remove(a, 5) on a ring with two a's leaves the length at 3 |
| Scenarios.ClearTwice | DLR.h:740-743 | clearing a three-node ring releases three nodes, and a second clear releases none and leaves it empty |
| Scenarios.CycleClosure | DLR.h:144-158 | on any ring, a cursor moved length() steps by + or by - is back on its node |
| Scenarios.EqualIgnoresInfo | DLR.h:782-783 | [(a,1)] == [(a,2)] holds as written and fails once infos are compared; [(a,1)] != [(a,2)] fails as written and holds once infos are compared |
| Scenarios.ClearReleasesTwice | DLR.h:745-754 | clear as written on a one-node ring releases the same node twice; the corrected clear releases it once |

## Findings

| source | as written | input that shows it | evidently intended | confidence | as-written member | corrected member |
|---|---|---|---|---|---|---|
| DLR.h:782-783 | the loop compares `travel2->info` with itself, so the two rings' infos are never compared; `operator!=` (DLR.h:802) negates this `==` | the one-node rings [(a,1)] and [(a,2)]: `==` returns true and `!=` returns false | compare `travel1->info` with `travel2->info`, so equal rings have equal keys and infos in the same order | not executed | DLR.Ring.EqualAsWritten, DLR.Ring.NotEqualAsWritten, Scenarios.EqualIgnoresInfo | DLR.Ring.Equal, DLR.Ring.NotEqual |
| DLR.h:745-754 | `travel` starts at `any->next`, and the do-while deletes each node it passes until `travel == any`; line 754 then deletes `any` | a one-node ring: `any->next == any`, so the loop body deletes `any` and line 754 deletes it a second time | delete every node exactly once; `operator=` (DLR.h:421) and the destructor call the same `clear` | not executed | DLR.Ring.ClearAsWritten, Scenarios.ClearReleasesTwice | DLR.Ring.Clear |

The rest of the model uses the corrected members: `NotEqual` negates `Equal`, and `Assign` and the `Copy` constructor call `Clear`.

## Left out

- `print` (DLR.h:525-541) and every `std::cerr` diagnostic: these are output only. A failure shows up as the boolean result or as no change.
- `new`, `delete` and `std::bad_alloc`: nodes are entries of a map, and a new node takes the id `nextId`, which no live node uses. `delete` is modelled by removing the entry. Clear and ClearAsWritten also return the ids they delete, in deletion order, so that a double delete can be seen.
- The destructor `~DLR` (DLR.h:235-237): the end of an object's life is not modelled. The destructor only calls `clear`.
- `Iterator::operator->` (DLR.h:180-194): it returns a pointer into a `unique_ptr` that is already destroyed, and the const version returns `&out`, which has the wrong type. Neither has a meaning to model.
- The `Content` struct of references (DLR.h:85-88): `Deref` returns the (key, info) value. Writing a node's key or info through those references is not modelled.
- `mutable travel` and the const tricks (DLR.h:82, DLR.h:122-142): cursor moves return the new cursor value. Post-increment and post-decrement return the old cursor, which the caller already holds.
- The Iterator's constructors, assignment and `==`/`!=` (DLR.h:95-116, DLR.h:200-206): the cursor is a datatype value, so copying and comparing it are value copy and value equality.
- Dangling cursors, and cursors from another ring: they are undefined behaviour in the source. Every cursor operation requires a cursor that is null or stands on a node of this ring (`OnRing`). Moving or dereferencing a null cursor is excluded the same way.
- DLR.Ring.HowMany: the count is an unbounded `nat`. Wrap-around of the `unsigned int` counter past 2^32 matching nodes is not modelled.
- DLR.Ring.Length: the same holds for the length counter.
- Scenarios.CycleClosure: it requires a length below 2^31, because `operator+` takes an `int`.
- Memory allocation failure: a new node always succeeds.
- DLR.Ring.Assign: it calls the corrected `Clear`. The `operator=` of DLR.h calls the `clear` of DLR.h:737-759, so assigning to a one-node ring deletes that node twice (see Findings). The model does not repeat that double delete here.
- DLR.Ring.Copy: its target is empty when it calls `Assign`, so the double delete never arises in the copy constructor.
- DLR.Ring.EqualAsWritten: the model requires `Info` equality to be reflexive (`V(==)`), so `info != info` is always false. In C++ it can be true: for a NaN `double`, or for an `Info` whose `operator!=` is not irreflexive. Then `==` as written returns false on such a node. That case is not modelled.

# Circular doubly-linked list of self-contained nodes

A Dafny model of the `linkedlist` package: a circular doubly-linked list in
which there is no list object, so that every `DLL_Node` is a handle to the
whole list it belongs to, together with its iterator and the ordered
subclass `Ordered_DLL`.

- `dll_node.dfy`, module `DLL`: the node class `Node` with nullable `next`
  and `prev` links; the constructor (a one-node cycle), `Insert` (the
  four-assignment splice), `Remove` (the sole-member case and the general
  case, both leaving the removed node with null links), `Iterator`, and the
  traversal of `listToString`; the iterator class `NodeIterator` with its
  `head`, its `current` cursor, `HasNext` and `Next`. A well-formed list is
  stated by the ghost predicate `Ring(L)` over a witness sequence `L` that
  names the members in `next` order: distinct members, each `next` the
  following member and each `prev` the preceding one, cyclically. The
  documented invariants (mutual prev/next consistency, circularity) are
  proved from it as lemmas.
- `ordered_dll.dfy`, module `Ordered`: `OrderedNode`, a node with an
  `ordinal`; the documented ordering and header invariant as the predicate
  `OrderedList(H)`; the `insert` and `find` of `Ordered_DLL` as written, which
  are stubs (an empty body and `return null`).
- `scenarios.dfy`, module `Scenarios`: the suggested test cases in the
  node's documentation and the four unit tests, replayed on the model, and
  `IterateAll`, the `hasNext`/`next` loop the unit tests use to render a list.

Dafny has no class inheritance without traits, so `OrderedNode` holds its
plain list node as a constant field `node`; the links of an ordered node are
the links of that node.

The comments of `Ordered_DLL.java` say that elements are kept in order, that
a search may be abandoned once a higher ordinal is met, that `insert` puts a
node into its correct position, and that the handles an iterator returns
are down-cast to `Ordered_DLL`. The bodies of `insert` and `find` are stubs.
The model follows the code: `Insert` changes nothing and `Find` returns
null.

## Model

| member | source | states |
|---|---|---|
| DLL.Ring | LinkedList/src/linkedlist/DLL_Node.java:12-18 | the documented well-formed list invariants over a witness sequence: distinct members, each member's `next` the following member and its `prev` the preceding one, the last wrapping round to the first |
| DLL.Node.constructor | LinkedList/src/linkedlist/DLL_Node.java:29-33 | a new node is a list of one: its `next` and its `prev` are itself |
| DLL.Node.Insert | LinkedList/src/linkedlist/DLL_Node.java:35-53 | afterwards `after.next` is this node, this node's `prev` is `after`, its `next` is the old successor of `after` and that successor's `prev` is this node; only this node, `after` and that successor are written; when `after` is in a well-formed list `L` that does not contain this node, the result is the well-formed list `L` with this node directly after `after`, one longer |
| DLL.Node.Remove | LinkedList/src/linkedlist/DLL_Node.java:55-73 | on a member of a well-formed list the removed node is left with both links null; it was the sole member exactly when its `next` was itself; otherwise its old `prev` now points forward to its old `next` and back, and the other members form a well-formed list one shorter in the same cyclic order |
| DLL.Node.Iterator | LinkedList/src/linkedlist/DLL_Node.java:75-82 | a new iterator rooted at this node, not yet started |
| DLL.Node.ListToString | LinkedList/src/linkedlist/DLL_Node.java:84-114 | a node with a null link reads as Empty; from the first member of a well-formed list the walk visits exactly the list's members, in `next` order, each once, starting node first |
| DLL.NodeIterator.constructor | LinkedList/src/linkedlist/DLL_Node.java:124-142 | the iterator remembers its root as `head` and starts with no current node |
| DLL.NodeIterator.HasNext | LinkedList/src/linkedlist/DLL_Node.java:144-163 | false whenever the root has a null link, whatever the cursor; on a well-formed list true exactly while fewer members than the list holds have been yielded; writes nothing |
| DLL.NodeIterator.Next | LinkedList/src/linkedlist/DLL_Node.java:165-190 | a root with a null link yields null and the cursor stays; on a well-formed list the first call yields the root, each later call the member after the one last yielded, and after all N members it yields null with the cursor unchanged |
| DLL.SplicedIsRing | LinkedList/src/linkedlist/DLL_Node.java:40-41 | the links `insert` leaves behind make the list with the new node spliced after the anchor well formed |
| DLL.WithoutIsRing | LinkedList/src/linkedlist/DLL_Node.java:58-61 | the links `remove` leaves behind on a list of two or more make the remaining members a well-formed list |
| DLL.SplicedThenWithout | LinkedList/src/linkedlist/DLL_Node.java:43-73 | removing the node that `insert` just placed after position k gives back exactly the original member sequence |
| DLL.FollowNextInRing | LinkedList/src/linkedlist/DLL_Node.java:15-17 | in a well-formed list, following `next` k times (k at most N) from position i reaches position i + k, wrapping round |
| DLL.FollowPrevInRing | LinkedList/src/linkedlist/DLL_Node.java:15-18 | in a well-formed list, following `prev` k times (k at most N) from position i reaches position i - k, wrapping round |
| DLL.Circularity | LinkedList/src/linkedlist/DLL_Node.java:15-18 | following `next` N times, or `prev` N times, from any member of a list of N nodes leads back to it, and no smaller positive number of steps does |
| DLL.MutualLinks | LinkedList/src/linkedlist/DLL_Node.java:13-14 | for members x, y of a well-formed list, `x.next == y` exactly when `y.prev == x` |
| DLL.RotatedIsRing | LinkedList/src/linkedlist/DLL_Node.java:9-10 | a well-formed list read from any of its members is again a well-formed list, so any node is a handle to its whole list |
| Ordered.OrderedList | LinkedList/src/linkedlist/Ordered_DLL.java:10-13 | the documented ordered-list invariants: a well-formed list that begins with an ordinal-0 header, whose other members have positive ordinals, and whose ordinals never decrease along `next` from the header |
| Ordered.OrderedNode.constructor | LinkedList/src/linkedlist/Ordered_DLL.java:20-28 | a new ordered node holds the given non-negative ordinal and is a one-node cycle |
| Ordered.OrderedNode.Insert | LinkedList/src/linkedlist/Ordered_DLL.java:31-49 | as written: no link and no ordinal changes, so the ordered list headed by `head` stays well formed and ordered |
| Ordered.OrderedNode.Find | LinkedList/src/linkedlist/Ordered_DLL.java:51-61 | as written: the result is null for every sought value, which trivially meets the documented promise that a non-null result has that ordinal |
| Ordered.NextWalkNeverDecreases | LinkedList/src/linkedlist/Ordered_DLL.java:10-13 | walking `next` from the ordinal-0 header visits the members in list order and the ordinals met never decrease |
| Ordered.PrevWalkNeverIncreases | LinkedList/src/linkedlist/Ordered_DLL.java:10-13 | the header's `prev` is the last member, and walking `prev` from there visits the members in reverse with ordinals never increasing, down to the header |
| Scenarios.IterateAll | LinkedList/src/linkedlist/DLL_Node_test.java:28-44 | draining a fresh iterator yields nothing for a root with a null link, and exactly the list's members, root first, in `next` order, for a well-formed list |
| Scenarios.FreshNode | LinkedList/src/linkedlist/DLL_Node.java:198 | a new node lists and iterates as [a] |
| Scenarios.InsertThenRemove | LinkedList/src/linkedlist/DLL_Node.java:198-200 | `b.insert(a)` iterates from a as [a,b]; after `b.remove()` a iterates as [a] and b as [] |
| Scenarios.BuildThree | LinkedList/src/linkedlist/DLL_Node_test.java:83-88 | `b.insert(a); c.insert(b)` builds the well-formed list [a,b,c] |
| Scenarios.IterateThree | LinkedList/src/linkedlist/DLL_Node_test.java:82-90 | [a,b,c] iterates as [a,b,c] from a (and as [b,c,a] from b) |
| Scenarios.RemoveFirst | LinkedList/src/linkedlist/DLL_Node_test.java:62-71 | removing a from [a,b,c] leaves b iterating as [b,c] and a unlinked |
| Scenarios.InsertThenRemoveRestores | LinkedList/src/linkedlist/DLL_Node.java:43-73 | inserting a node that is not in the list after one of its members and removing it again leaves that list well formed with the very same links, and the node unlinked |
| Scenarios.IterateNone | LinkedList/src/linkedlist/DLL_Node_test.java:74-79 | a removed lone node iterates as [] and lists as Empty |
| Scenarios.OrderedStubs | LinkedList/src/linkedlist/Ordered_DLL.java:39-61 | on a header-only ordered list, the stub insert leaves the header listing as [header] and the new node a one-node cycle, and the stub find returns null |

## Left out

- `main` of `DLL_Node.java`: console printing only.
- The text `listToString` builds (each node's `toString`, commas and brackets): only the traversal order and the "Empty" case are modelled, as a `Listing` value.
- The `Iterable`/`Iterator` interfaces of Java, and a null `head` in the iterator (`hasNext` tests for it; `iterator()` never produces one): `head` is a non-null node here.
- The insertion at the correct position, the abandoned search and the down-cast from `DLL_Node` to `Ordered_DLL` that the comments of `Ordered_DLL.java` mention: the code has no such algorithm, so there is nothing to model.
- Class inheritance of `Ordered_DLL` from `DLL_Node`: modelled by composition (`OrderedNode.node`), because Dafny offers inheritance only through traits, which this model does not use.
- DLL.Node.Insert: requires only that this node is not in the anchor's list; what happens to a list the node was still linked into (it is corrupted) is not described, since that is misuse that `DLL_Node.insert` neither checks nor documents.
- DLL.Node.ListToString: requires that a start node with both links set is the first member of a well-formed list. On any other such node the Java loop either throws a NullPointerException (when the `next` chain reaches null) or never ends (when the chain enters a cycle that avoids the start, as for `s.next = s.prev = t; t.next = t`), or, when the `next` chain returns to the start through members whose `prev` links are wrong, ends normally and lists that chain instead of reporting Empty (as for `s.next = s.prev = t; t.next = s; t.prev = null`, listed as [s, t]); none of these outcomes is modelled. The comment at DLL_Node.java line 94 promises "Empty" for every list that is not well formed, but the check at line 95 looks only at the start node's two links.
- DLL.Node.Remove: requires a well-formed list around the node; removing an already unlinked node dereferences null in `DLL_Node.remove` and is excluded.
- DLL.NodeIterator.Next: changing the list while an iterator is in use is not modelled; the iterator's contract speaks of one unchanged well-formed list.
- Scenarios.IterateAll: the unit tests' rendering loop also appends a marker and stops when `next` returns null; that branch is not modelled, since from a malformed root the loop does not start and on a well-formed list `next` never returns null while `hasNext` holds.
- The 32-bit width of `ordinal`: the constructor requires a value between 0 and 2^31 - 1; no arithmetic is done on ordinals, so wrap-around never arises.
- Concurrency and garbage collection: the model is single-threaded and nodes are never freed.

/**
 * The suggested test cases of the list and its unit tests, replayed against
 * the model.  Each scenario returns the nodes it built and what traversing
 * them reports.
 */
module Scenarios {
  import opened DLL
  import opened Ordered

  /**
   * Drains a fresh iterator rooted at `start`, collecting what `Next` yields
   * while `HasNext` holds: the loop the unit tests render lists with.  A
   * malformed root yields nothing; a well-formed list yields each of its
   * members exactly once, the root first, in `next` order.
   */
  method IterateAll(start: Node, ghost L: seq<Node>) returns (out: seq<Node?>)
    requires start.next == null || start.prev == null || (Ring(L) && L[0] == start)
    ensures start.next == null || start.prev == null ==> out == []
    ensures Ring(L) && L[0] == start ==> out == L
  {
    var it := start.Iterator();
    ghost var yielded: nat := 0;
    out := [];
    var more := it.HasNext(L, yielded);
    while more
      invariant fresh(it) && it.head == start
      invariant it.Malformed() ==> !more && out == []
      invariant !it.Malformed() ==>
        it.Iterating(L, yielded) && out == L[..yielded] && (more <==> yielded < |L|)
      decreases |L| - yielded
    {
      var x := it.Next(L, yielded);
      out := out + [x];
      yielded := yielded + 1;
      more := it.HasNext(L, yielded);
    }
  }

  /** `new(a)`: a lone node lists and iterates as [a]. */
  method FreshNode() returns (a: Node, listed: Listing, iterated: seq<Node?>)
    ensures listed == Members([a]) && iterated == [a]
  {
    a := new Node();
    assert Ring([a]);
    listed := a.ListToString([a]);
    iterated := IterateAll(a, [a]);
  }

  /**
   * `new(b); b.insert(a)` gives a: [a,b]; then `b.remove()` gives a: [a] and
   * b: [], the removed node reading as empty.
   */
  method InsertThenRemove() returns (a: Node, b: Node, joined: seq<Node?>, fromA: seq<Node?>, fromB: seq<Node?>)
    ensures a != b && joined == [a, b] && fromA == [a] && fromB == []
    ensures b.next == null && b.prev == null
  {
    a := new Node();
    b := new Node();
    assert Ring([a]);
    b.Insert(a, [a], 0);
    assert Spliced([a], 0, b) == [a, b];
    joined := IterateAll(a, [a, b]);
    b.Remove([a, b], 1);
    assert Without([a, b], 1) == [a];
    fromA := IterateAll(a, [a]);
    fromB := IterateAll(b, []);
  }

  /** Builds [a,b,c] by `b.insert(a); c.insert(b)`. */
  method BuildThree() returns (a: Node, b: Node, c: Node)
    ensures fresh(a) && fresh(b) && fresh(c) && Ring([a, b, c])
  {
    a := new Node();
    b := new Node();
    c := new Node();
    assert Ring([a]);
    b.Insert(a, [a], 0);
    assert Spliced([a], 0, b) == [a, b];
    c.Insert(b, [a, b], 1);
    assert Spliced([a, b], 1, c) == [a, b, c];
  }

  /** [a,b,c] iterates as [a,b,c] from a, and as [b,c,a] from b. */
  method IterateThree() returns (a: Node, b: Node, c: Node, fromA: seq<Node?>, fromB: seq<Node?>)
    ensures fromA == [a, b, c] && fromB == [b, c, a]
  {
    a, b, c := BuildThree();
    fromA := IterateAll(a, [a, b, c]);
    RotatedIsRing([a, b, c], 1);
    assert Rotated([a, b, c], 1) == [b, c, a];
    fromB := IterateAll(b, [b, c, a]);
  }

  /** [a,b,c], `a.remove()` iterates from b as [b,c]. */
  method RemoveFirst() returns (a: Node, b: Node, c: Node, fromB: seq<Node?>)
    ensures fromB == [b, c]
    ensures a.next == null && a.prev == null
  {
    a, b, c := BuildThree();
    ghost var L := [a, b, c];
    assert L[0].next == L[Succ(0, 3)] && L[0].prev == L[Pred(0, 3)];
    a.Remove([a, b, c], 0);
    assert Without([a, b, c], 0) == [b, c];
    fromB := IterateAll(b, [b, c]);
  }

  /**
   * Inserting a node that is in no list and then removing it again restores
   * the anchor's list exactly, link for link, and leaves the node unlinked.
   */
  method InsertThenRemoveRestores(x: Node, after: Node, ghost L: seq<Node>, ghost k: nat)
    requires Ring(L) && k < |L| && L[k] == after && x !in L
    modifies x, after, after.next
    ensures Ring(L)
    ensures x.next == null && x.prev == null
  {
    ghost var succ := after.next;
    x.Insert(after, L, k);
    ghost var joined := Spliced(L, k, x);
    assert joined[k + 1] == x && x.prev == after && x.next == succ;
    x.Remove(joined, k + 1);
    SplicedThenWithout(L, k, x);
  }

  /** A lone node that is removed iterates as []. */
  method IterateNone() returns (a: Node, iterated: seq<Node?>, listed: Listing)
    ensures iterated == [] && listed == Empty
  {
    a := new Node();
    a.Remove([a], 0);
    iterated := IterateAll(a, []);
    listed := a.ListToString([]);
  }

  /**
   * A header-only ordered list: the stub `insert` leaves both the header's
   * list and the inserted node as they were, and the stub `find` reports
   * nothing, whatever ordinal is sought.
   */
  method OrderedStubs(value: int, sought: int) returns (header: OrderedNode, x: OrderedNode, listed: Listing, found: OrderedNode?)
    requires 0 <= value <= MaxOrdinal
    ensures header.ordinal == 0 && x.ordinal == value
    ensures listed == Members([header.node])
    ensures x.node.next == x.node && x.node.prev == x.node
    ensures found == null
  {
    header := new OrderedNode(0);
    x := new OrderedNode(value);
    assert Nodes([header]) == [header.node];
    assert OrderedList([header]);
    x.Insert(header, [header]);
    listed := header.node.ListToString([header.node]);
    found := header.Find(sought, [header]);
  }
}

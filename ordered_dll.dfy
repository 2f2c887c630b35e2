/**
 * A list node carrying an integer ordinal, meant to keep its circular list
 * sorted by ordinal behind an ordinal-0 header.
 *
 * The Java class `Ordered_DLL` extends `DLL_Node`; here an `OrderedNode` owns its
 * plain `Node` as a constant field, so its links are that node's links.  The
 * ordered `insert` and `find` are stubs in `Ordered_DLL` (an empty body and a
 * `return null`), and are modelled as written.
 */
module Ordered {
  import opened DLL

  /** Largest value of the 32-bit Java `int` that holds `Ordered_DLL.ordinal`. */
  const MaxOrdinal: int := 0x7fff_ffff

  /** The plain list nodes of the ordered nodes `H`, in the same order. */
  function Nodes(H: seq<OrderedNode>): (L: seq<Node>)
    ensures |L| == |H|
    ensures forall i :: 0 <= i < |H| ==> L[i] == H[i].node
  {
    seq(|H|, i requires 0 <= i < |H| => H[i].node)
  }

  /**
   * `H` is a well-formed ordered list: its nodes form a well-formed circular
   * list in the order of `H`, it begins with a header whose ordinal is 0,
   * every other member has a positive ordinal, and the ordinals never
   * decrease along `next` from the header.  (The edge from the last member
   * back to the header is the one place where they drop.)
   */
  ghost predicate OrderedList(H: seq<OrderedNode>)
    reads H, Nodes(H)
  {
    && Ring(Nodes(H))
    && H[0].ordinal == 0
    && (forall i :: 0 < i < |H| ==> H[i].ordinal > 0)
    && forall i, j :: 0 <= i <= j < |H| ==> H[i].ordinal <= H[j].ordinal
  }

  class OrderedNode {
    /** The plain list node; its links are the links of this ordered node. */
    const node: Node
    /** The sequencing value, non-negative, 0 for the header. */
    var ordinal: int

    /** A new ordered node, not in any list: a one-node cycle with the given ordinal. */
    constructor(value: int)
      requires 0 <= value <= MaxOrdinal
      ensures ordinal == value
      ensures fresh(node) && node.next == node && node.prev == node
    {
      node := new Node();
      ordinal := value;
    }

    /**
     * Inserting into the ordered list headed by `head`: the body of `Ordered_DLL.insert`
     * holds only comments, so no link and no ordinal is written and the
     * ordered list stays as it was.
     */
    method Insert(head: OrderedNode, ghost H: seq<OrderedNode>)
      requires OrderedList(H) && H[0] == head
      ensures unchanged(H) && unchanged(Nodes(H)) && unchanged(this, node)
      ensures OrderedList(H)
    {
    }

    /**
     * Looking up `value` from this header: `Ordered_DLL.find` returns null for
     * every value, which meets its documented contract that a non-null
     * result carries the sought ordinal.
     */
    method Find(value: int, ghost H: seq<OrderedNode>) returns (r: OrderedNode?)
      requires OrderedList(H) && H[0] == this
      ensures r == null
    {
      r := null;
    }
  }

  /**
   * Walking `next` from the header visits the members in the order of `H`
   * and the ordinals met never decrease.
   */
  lemma NextWalkNeverDecreases(H: seq<OrderedNode>, k: nat, m: nat)
    requires OrderedList(H) && k <= m < |H|
    ensures FollowNext(H[0].node, k) == H[k].node
    ensures FollowNext(H[0].node, m) == H[m].node
    ensures H[k].ordinal <= H[m].ordinal
  {
    FollowNextInRing(Nodes(H), 0, k);
    FollowNextInRing(Nodes(H), 0, m);
  }

  /**
   * Walking `prev` from the header's predecessor (the last member) visits
   * the members in reverse order and the ordinals met never increase, down
   * to the header.
   */
  lemma PrevWalkNeverIncreases(H: seq<OrderedNode>, k: nat, m: nat)
    requires OrderedList(H) && k <= m < |H|
    ensures H[0].node.prev == H[|H| - 1].node
    ensures FollowPrev(H[|H| - 1].node, k) == H[|H| - 1 - k].node
    ensures FollowPrev(H[|H| - 1].node, m) == H[|H| - 1 - m].node
    ensures H[|H| - 1 - m].ordinal <= H[|H| - 1 - k].ordinal
  {
    var L := Nodes(H);
    assert L[0].prev == L[Pred(0, |L|)];
    FollowPrevInRing(L, |L| - 1, k);
    FollowPrevInRing(L, |L| - 1, m);
  }
}

/**
 * A circular doubly-linked list in which every node is a handle to the whole
 * list it belongs to: there is no separate list object.
 *
 * The nodes are heap objects with nullable `next` and `prev` links, as in the
 * Java class `DLL_Node`.  A list is described by a ghost witness `L: seq<Node>` that
 * names its members in `next` order; `Ring(L)` is the well-formedness
 * invariant documented on `DLL_Node` (mutual prev/next consistency and
 * circularity), stated over that witness.
 */
module DLL {

  /** Position after `i` in a cycle of `n` positions. */
  function Succ(i: nat, n: nat): (j: nat)
    requires i < n
    ensures j < n
  {
    if i + 1 == n then 0 else i + 1
  }

  /** Position before `i` in a cycle of `n` positions. */
  function Pred(i: nat, n: nat): (j: nat)
    requires i < n
    ensures j < n && Succ(j, n) == i
  {
    if i == 0 then n - 1 else i - 1
  }

  /** No node occurs twice in `L`. */
  ghost predicate Distinct(L: seq<Node>)
  {
    forall i, j :: 0 <= i < j < |L| ==> L[i] != L[j]
  }

  /**
   * `L` is a well-formed circular list: its members are distinct, the `next`
   * of each member is the following member (the last wraps to the first), and
   * the `prev` of each member is the preceding one (the first wraps to the last).
   */
  ghost predicate Ring(L: seq<Node>)
    reads L
  {
    && |L| > 0
    && Distinct(L)
    && (forall i {:trigger L[i].next} :: 0 <= i < |L| ==> L[i].next == L[Succ(i, |L|)])
    && (forall i {:trigger L[i].prev} :: 0 <= i < |L| ==> L[i].prev == L[Pred(i, |L|)])
  }

  /** The list `L` with `x` placed directly after position `k`. */
  function Spliced(L: seq<Node>, k: nat, x: Node): (r: seq<Node>)
    requires k < |L|
    ensures |r| == |L| + 1
    ensures forall j :: 0 <= j < |r| ==>
      r[j] == (if j <= k then L[j] else if j == k + 1 then x else L[j - 1])
  {
    L[..k + 1] + [x] + L[k + 1..]
  }

  /** The list `L` without its member at position `k`. */
  function Without(L: seq<Node>, k: nat): (r: seq<Node>)
    requires k < |L|
    ensures |r| == |L| - 1
    ensures forall j :: 0 <= j < |r| ==> r[j] == (if j < k then L[j] else L[j + 1])
  {
    L[..k] + L[k + 1..]
  }

  /** The list `L` read from position `k` round to position `k - 1`. */
  function Rotated(L: seq<Node>, k: nat): (r: seq<Node>)
    requires k < |L|
    ensures |r| == |L|
    ensures forall j :: 0 <= j < |r| ==>
      r[j] == (if j < |L| - k then L[k + j] else L[j - (|L| - k)])
  {
    L[k..] + L[..k]
  }

  /** The node reached from `n` by following `next` `k` times; null once a link is null. */
  ghost function FollowNext(n: Node?, k: nat): Node?
    reads *
  {
    if k == 0 || n == null then n else FollowNext(n.next, k - 1)
  }

  /** The node reached from `n` by following `prev` `k` times; null once a link is null. */
  ghost function FollowPrev(n: Node?, k: nat): Node?
    reads *
  {
    if k == 0 || n == null then n else FollowPrev(n.prev, k - 1)
  }

  /** In a well-formed list, `k <= N` steps forward from position `i` land on position `i + k`, cyclically. */
  lemma {:induction false} FollowNextInRing(L: seq<Node>, i: nat, k: nat)
    requires Ring(L) && i < |L| && k <= |L|
    ensures FollowNext(L[i], k) == L[if i + k < |L| then i + k else i + k - |L|]
    decreases k
  {
    if k > 0 {
      assert L[i].next == L[Succ(i, |L|)];
      FollowNextInRing(L, Succ(i, |L|), k - 1);
    }
  }

  /** In a well-formed list, `k <= N` steps backward from position `i` land on position `i - k`, cyclically. */
  lemma {:induction false} FollowPrevInRing(L: seq<Node>, i: nat, k: nat)
    requires Ring(L) && i < |L| && k <= |L|
    ensures FollowPrev(L[i], k) == L[if k <= i then i - k else i - k + |L|]
    decreases k
  {
    if k > 0 {
      assert L[i].prev == L[Pred(i, |L|)];
      FollowPrevInRing(L, Pred(i, |L|), k - 1);
    }
  }

  /**
   * Circularity: from any member of a list of N nodes, following `next` N
   * times, or `prev` N times, leads back to that member, and no fewer
   * steps do.
   */
  lemma Circularity(L: seq<Node>, i: nat)
    requires Ring(L) && i < |L|
    ensures FollowNext(L[i], |L|) == L[i] && FollowPrev(L[i], |L|) == L[i]
    ensures forall k :: 0 < k < |L| ==> FollowNext(L[i], k) != L[i]
    ensures forall k :: 0 < k < |L| ==> FollowPrev(L[i], k) != L[i]
  {
    FollowNextInRing(L, i, |L|);
    FollowPrevInRing(L, i, |L|);
    forall k | 0 < k < |L|
      ensures FollowNext(L[i], k) != L[i] && FollowPrev(L[i], k) != L[i]
    {
      FollowNextInRing(L, i, k);
      FollowPrevInRing(L, i, k);
    }
  }

  /**
   * Mutual consistency: between members of a well-formed list, `x.next == y`
   * holds exactly when `y.prev == x`.
   */
  lemma MutualLinks(L: seq<Node>, x: Node, y: Node)
    requires Ring(L) && x in L && y in L
    ensures x.next == y <==> y.prev == x
  {
  }

  /** A well-formed list read from any of its members is again well formed. */
  lemma RotatedIsRing(L: seq<Node>, k: nat)
    requires Ring(L) && k < |L|
    ensures Ring(Rotated(L, k))
  {
  }

  /**
   * Links as `Insert` leaves them: every member of `L` keeps its links except
   * that position `k` now points forward to `x` and its old successor points
   * back to `x`, while `x` sits between the two.  Then `x` spliced in after
   * position `k` is a well-formed list.
   */
  lemma SplicedIsRing(L: seq<Node>, k: nat, x: Node)
    requires |L| > 0 && Distinct(L) && k < |L| && x !in L
    requires forall i {:trigger L[i].next} :: 0 <= i < |L| ==>
      L[i].next == (if i == k then x else L[Succ(i, |L|)])
    requires forall i {:trigger L[i].prev} :: 0 <= i < |L| ==>
      L[i].prev == (if i == Succ(k, |L|) then x else L[Pred(i, |L|)])
    requires x.next == L[Succ(k, |L|)] && x.prev == L[k]
    ensures Ring(Spliced(L, k, x))
  {
    SplicedNexts(L, k, x);
    SplicedPrevs(L, k, x);
    var R := Spliced(L, k, x);
    forall i, j | 0 <= i < j < |R|
      ensures R[i] != R[j]
    {
      if j == k + 1 {
        assert R[i] in L;
      } else if i == k + 1 {
        assert R[j] in L;
      }
    }
  }

  /** The forward half of `SplicedIsRing`. */
  lemma SplicedNexts(L: seq<Node>, k: nat, x: Node)
    requires |L| > 0 && k < |L|
    requires forall i {:trigger L[i].next} :: 0 <= i < |L| ==>
      L[i].next == (if i == k then x else L[Succ(i, |L|)])
    requires x.next == L[Succ(k, |L|)]
    ensures var R := Spliced(L, k, x);
      forall j {:trigger R[j].next} :: 0 <= j < |R| ==> R[j].next == R[Succ(j, |R|)]
  {
  }

  /** The backward half of `SplicedIsRing`. */
  lemma SplicedPrevs(L: seq<Node>, k: nat, x: Node)
    requires |L| > 0 && k < |L|
    requires forall i {:trigger L[i].prev} :: 0 <= i < |L| ==>
      L[i].prev == (if i == Succ(k, |L|) then x else L[Pred(i, |L|)])
    requires x.prev == L[k]
    ensures var R := Spliced(L, k, x);
      forall j {:trigger R[j].prev} :: 0 <= j < |R| ==> R[j].prev == R[Pred(j, |R|)]
  {
  }

  /**
   * Links as `Remove` leaves them on a list of two or more: the predecessor
   * of position `k` points forward to its successor and the successor back to
   * the predecessor, all other links unchanged.  Then the list without
   * position `k` is well formed.
   */
  lemma WithoutIsRing(L: seq<Node>, k: nat)
    requires |L| > 1 && Distinct(L) && k < |L|
    requires forall i {:trigger L[i].next} :: 0 <= i < |L| && i != k ==>
      L[i].next == (if i == Pred(k, |L|) then L[Succ(k, |L|)] else L[Succ(i, |L|)])
    requires forall i {:trigger L[i].prev} :: 0 <= i < |L| && i != k ==>
      L[i].prev == (if i == Succ(k, |L|) then L[Pred(k, |L|)] else L[Pred(i, |L|)])
    ensures Ring(Without(L, k))
  {
    WithoutNexts(L, k);
    WithoutPrevs(L, k);
    var R := Without(L, k);
    forall i, j | 0 <= i < j < |R|
      ensures R[i] != R[j]
    {
      assert R[i] == L[if i < k then i else i + 1];
      assert R[j] == L[if j < k then j else j + 1];
    }
  }

  /** The forward half of `WithoutIsRing`. */
  lemma WithoutNexts(L: seq<Node>, k: nat)
    requires |L| > 1 && k < |L|
    requires forall i {:trigger L[i].next} :: 0 <= i < |L| && i != k ==>
      L[i].next == (if i == Pred(k, |L|) then L[Succ(k, |L|)] else L[Succ(i, |L|)])
    ensures var R := Without(L, k);
      forall j {:trigger R[j].next} :: 0 <= j < |R| ==> R[j].next == R[Succ(j, |R|)]
  {
  }

  /** The backward half of `WithoutIsRing`. */
  lemma WithoutPrevs(L: seq<Node>, k: nat)
    requires |L| > 1 && k < |L|
    requires forall i {:trigger L[i].prev} :: 0 <= i < |L| && i != k ==>
      L[i].prev == (if i == Succ(k, |L|) then L[Pred(k, |L|)] else L[Pred(i, |L|)])
    ensures var R := Without(L, k);
      forall j {:trigger R[j].prev} :: 0 <= j < |R| ==> R[j].prev == R[Pred(j, |R|)]
  {
  }

  /** Taking out the node just spliced in gives back the list it was spliced into. */
  lemma SplicedThenWithout(L: seq<Node>, k: nat, x: Node)
    requires k < |L|
    ensures Without(Spliced(L, k, x), k + 1) == L
  {
    var R := Without(Spliced(L, k, x), k + 1);
    forall j | 0 <= j < |L|
      ensures R[j] == L[j]
    {
      assert R[j] == Spliced(L, k, x)[if j < k + 1 then j else j + 1];
    }
  }

  /** What `listToString` reports: "Empty", or the members in visiting order. */
  datatype Listing = Empty | Members(nodes: seq<Node>)

  class Node {
    var next: Node?
    var prev: Node?

    /** A new node is a list unto itself. */
    constructor()
      ensures next == this && prev == this
    {
      next := this;
      prev := this;
    }

    /**
     * Splices this node into the list of `after`, directly after it.  The
     * four link assignments of `DLL_Node.insert`, in its order.  The node's own
     * previous links are overwritten, not removed.
     */
    method Insert(after: Node, ghost L: seq<Node>, ghost k: nat)
      requires Ring(L) && k < |L| && L[k] == after
      requires this !in L
      modifies this, after, after.next
      ensures after.next == this && prev == after
      ensures next == old(after.next) && old(after.next).prev == this
      ensures Ring(Spliced(L, k, this))
    {
      ghost var n := |L|;
      ghost var s := Succ(k, n);
      assert after.next == L[s];
      after.next.prev := this;
      this.next := after.next;
      this.prev := after;
      after.next := this;

      forall i | 0 <= i < n
        ensures L[i].next == (if i == k then this else L[Succ(i, n)])
        ensures L[i].prev == (if i == s then this else L[Pred(i, n)])
      {
        assert L[i] != this;
        if i != k {
          assert L[i] != after && L[i].next == old(L[i].next);
        }
        if i != s {
          assert L[i] != L[s] && L[i].prev == old(L[i].prev);
        }
      }
      SplicedIsRing(L, k, this);
    }

    /**
     * Unlinks this node from its list.  A sole member only has its links
     * cleared; otherwise its two neighbours are first linked to each other.
     * Either way the removed node is left with null links.
     */
    method Remove(ghost L: seq<Node>, ghost k: nat)
      requires Ring(L) && k < |L| && L[k] == this
      modifies this, prev, next
      ensures next == null && prev == null
      ensures old(next) == this <==> |L| == 1
      ensures |L| > 1 ==> old(prev).next == old(next) && old(next).prev == old(prev)
      ensures |L| > 1 ==> Ring(Without(L, k))
    {
      ghost var n := |L|;
      ghost var p, s := Pred(k, n), Succ(k, n);
      assert next == L[s] && prev == L[p];
      if next == this {
        next := null;
        prev := null;
      } else {
        prev.next := next;
        next.prev := prev;
        next := null;
        prev := null;

        forall i | 0 <= i < n && i != k
          ensures L[i].next == (if i == p then L[s] else L[Succ(i, n)])
          ensures L[i].prev == (if i == s then L[p] else L[Pred(i, n)])
        {
          assert L[i] != this;
          if i != p {
            assert L[i] != L[p] && L[i].next == old(L[i].next);
          }
          if i != s {
            assert L[i] != L[s] && L[i].prev == old(L[i].prev);
          }
        }
        WithoutIsRing(L, k);
      }
    }

    /** An iterator over the list of this node, rooted at this node. */
    method Iterator() returns (it: NodeIterator)
      ensures fresh(it) && it.head == this && it.current == null
    {
      it := new NodeIterator(this);
    }

    /**
     * The traversal of `listToString`: a node with a null link reads as
     * "Empty"; otherwise the walk visits this node first and follows `next`
     * until it comes back round to this node.
     */
    method ListToString(ghost L: seq<Node>) returns (r: Listing)
      requires prev == null || next == null || (Ring(L) && L[0] == this)
      ensures prev == null || next == null ==> r == Empty
      ensures Ring(L) && L[0] == this ==> r == Members(L)
    {
      if prev == null || next == null {
        return Empty;
      }
      var list: seq<Node> := [];
      var finger: Node? := this;
      var flag := false;
      while finger != this || !flag
        invariant |list| <= |L|
        invariant list == L[..|list|]
        invariant flag <==> |list| > 0
        invariant finger == L[if |list| == |L| then 0 else |list|]
        decreases |L| - |list|
      {
        flag := true;
        list := list + [finger];
        finger := finger.next;
      }
      return Members(list);
    }
  }

  /**
   * The iterator of a list, rooted at `head`.  `current` is null before the
   * first call to `Next`, then the node last yielded.
   */
  class NodeIterator {
    const head: Node
    var current: Node?

    constructor(start: Node)
      ensures head == start && current == null
    {
      head := start;
      current := null;
    }

    /** The root of the iteration has a null link. */
    ghost predicate Malformed()
      reads head
    {
      head.next == null || head.prev == null
    }

    /**
     * This iterator runs over the well-formed list `L` rooted at `head` and
     * has yielded its first `yielded` members.
     */
    ghost predicate Iterating(L: seq<Node>, yielded: nat)
      reads this, L
    {
      && Ring(L) && L[0] == head && yielded <= |L|
      && current == (if yielded == 0 then null else L[yielded - 1])
    }

    /**
     * Whether another node remains.  Always false for a malformed root,
     * whatever the iterator's position; otherwise true exactly while fewer
     * members than the list holds have been yielded.
     */
    method HasNext(ghost L: seq<Node>, ghost yielded: nat) returns (more: bool)
      requires Malformed() || Iterating(L, yielded)
      ensures Malformed() ==> !more
      ensures Iterating(L, yielded) ==> (more <==> yielded < |L|)
    {
      if head.next == null || head.prev == null {
        more := false;
      } else if current == null {
        more := true;
      } else if current.next == head {
        assert current == L[yielded - 1];
        more := false;
      } else {
        more := true;
      }
    }

    /**
     * Yields the next node and advances.  A malformed root yields null and
     * nothing moves; otherwise the first call yields `head`, each later call
     * the `next` of the node last yielded, and once every member has been
     * yielded the iterator yields null and stays where it is.
     */
    method Next(ghost L: seq<Node>, ghost yielded: nat) returns (r: Node?)
      requires Malformed() || Iterating(L, yielded)
      modifies this
      ensures Malformed() ==> r == null && current == old(current)
      ensures old(Iterating(L, yielded)) && yielded < |L| ==>
        r == L[yielded] && Iterating(L, yielded + 1)
      ensures old(Iterating(L, yielded)) && yielded == |L| ==>
        r == null && current == old(current) && Iterating(L, yielded)
    {
      if head.next == null || head.prev == null {
        return null;
      } else {
        if current == null {
          current := head;
          return current;
        } else if current.next != head {
          current := current.next;
          return current;
        } else {
          return null;
        }
      }
    }
  }
}

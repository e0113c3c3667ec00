/**
 * The event list of the doorbell firmware: a circular doubly linked list of
 * press records with a `head` pointer and a `length` counter. The same type
 * holds the button-press history and the parsed unlock pattern.
 */
module EventList {

  /** `bc_tick_t` is an unsigned 64-bit millisecond counter. */
  const TICK_MOD: int := 0x1_0000_0000_0000_0000
  /** The range of a 32-bit C `int`, the type of the `when` parameter of the add operations. */
  const INT_MIN: int := -0x8000_0000
  const INT_MAX: int := 0x7fff_ffff

  predicate IsTick(t: int) { 0 <= t < TICK_MOD }
  predicate IsCInt(x: int) { INT_MIN <= x <= INT_MAX }

  /**
   * The conversion of the `int when` argument into the `bc_tick_t` field of a
   * node: C converts a signed value to an unsigned 64-bit one modulo 2^64.
   */
  function Narrow(when: int): (t: nat)
    requires IsCInt(when)
    ensures IsTick(t)
    ensures (t - when) % TICK_MOD == 0
    ensures when >= 0 ==> t == when
  {
    if when >= 0 then when else when + TICK_MOD
  }

  /** `a mod n` for `0 <= a < 2n`. */
  lemma ModOneStep(a: int, n: int)
    requires 0 <= a < 2 * n
    ensures a % n == if a < n then a else a - n
  {
    QuotientBounds(a / n, n);
    assert a == (a / n) * n + a % n;
  }

  lemma QuotientBounds(q: int, n: int)
    requires n > 0
    ensures q >= 2 ==> q * n >= 2 * n
    ensures q <= -1 ==> q * n <= -n
  {
  }

  /** What a node carries besides its links: a timestamp and the short/long flag. */
  datatype Entry = Entry(when: nat, isLong: bool)

  /** `list_node_t`. The payload is written once, right after allocation. */
  class Node {
    const when: nat
    const isLong: bool
    var next: Node?
    var prev: Node?

    constructor (when: nat, isLong: bool)
      ensures this.when == when && this.isLong == isLong
    {
      this.when := when;
      this.isLong := isLong;
      next := null;
      prev := null;
    }
  }

  /** No node occurs twice in `s`. */
  predicate Distinct(s: seq<Node>)
  {
    forall i, j :: 0 <= i < j < |s| ==> s[i] != s[j]
  }

  /** `e` lists the payloads of the nodes `s`, in order. */
  predicate Carries(s: seq<Node>, e: seq<Entry>)
  {
    && |s| == |e|
    && forall i :: 0 <= i < |s| ==> e[i] == Entry(s[i].when, s[i].isLong)
  }

  /** Unlinking the node at position `k` keeps the remaining nodes distinct and their payloads in order. */
  lemma RemoveAt(s: seq<Node>, e: seq<Entry>, k: nat)
    requires k < |s| && Distinct(s) && Carries(s, e)
    ensures Distinct(s[..k] + s[k + 1..])
    ensures Carries(s[..k] + s[k + 1..], e[..k] + e[k + 1..])
  {
    var rest := s[..k] + s[k + 1..];
    assert forall i :: 0 <= i < |rest| ==> rest[i] == s[if i < k then i else i + 1];
  }

  /**
   * The nodes `s` form a ring in both directions: each node's `next` is the
   * following node and its `prev` the preceding one, wrapping around.
   */
  ghost predicate Ring(s: seq<Node>)
    reads s
  {
    var n := |s|;
    && (forall i :: 0 <= i < n - 1 ==> s[i].next == s[i + 1])
    && (forall i :: 0 < i < n ==> s[i].prev == s[i - 1])
    && (n > 0 ==> s[n - 1].next == s[0] && s[0].prev == s[n - 1])
  }

  /** The position before `i` in a ring of `n`. */
  function Before(i: nat, n: nat): nat
    requires i < n
  {
    if i == 0 then n - 1 else i - 1
  }

  /** The position after `i` in a ring of `n`. */
  function After(i: nat, n: nat): nat
    requires i < n
  {
    if i == n - 1 then 0 else i + 1
  }

  /**
   * Compared with the earlier heap, only the `next` of the node before
   * position `k` and the `prev` of the node after it have changed, and they
   * now point at each other.
   */
  twostate predicate Relinked(s: seq<Node>, k: nat)
    reads s
  {
    && 2 <= |s| && k < |s|
    && (forall i :: 0 <= i < |s| && i != Before(k, |s|) ==> s[i].next == old(s[i].next))
    && (forall i :: 0 <= i < |s| && i != After(k, |s|) ==> s[i].prev == old(s[i].prev))
    && s[Before(k, |s|)].next == s[After(k, |s|)]
    && s[After(k, |s|)].prev == s[Before(k, |s|)]
  }

  /**
   * Compared with the earlier heap, `node` has been linked in between the
   * last node of the ring `s` and its first: only the `next` of the last
   * node and the `prev` of the first have changed.
   */
  twostate predicate Spliced(s: seq<Node>, new node: Node)
    reads s, node
  {
    && 1 <= |s|
    && (forall i :: 0 <= i < |s| - 1 ==> s[i].next == old(s[i].next))
    && (forall i :: 0 < i < |s| ==> s[i].prev == old(s[i].prev))
    && s[|s| - 1].next == node && node.prev == s[|s| - 1]
    && node.next == s[0] && s[0].prev == node
  }

  /** `list_t`: a `head` pointer and a `length` counter over a ring of nodes. */
  class List {
    var head: Node?
    var length: int
    /** The distinct nodes of the ring, starting at `head` and following `next`. */
    ghost var nodes: seq<Node>
    /** The abstract content: one entry per node, in ring order. */
    ghost var elems: seq<Entry>
    /** The objects this list owns: itself and every node it has allocated. */
    ghost var Repr: set<object>

    ghost predicate Valid()
      reads this, Repr
    {
      var n := |nodes|;
      && this in Repr
      && (forall i :: 0 <= i < n ==> nodes[i] in Repr)
      && length == n
      && Distinct(nodes)
      && Carries(nodes, elems)
      && (head == null <==> n == 0)
      && (n > 0 ==> head == nodes[0])
      && Ring(nodes)
    }

    /** `list_init`: the empty list. */
    constructor ()
      ensures Valid() && fresh(Repr)
      ensures head == null && length == 0
      ensures nodes == [] && elems == []
    {
      head := null;
      length := 0;
      nodes := [];
      elems := [];
      Repr := {this};
    }

    /** `list_add_first`: the new entry becomes the head, the old entries follow in order. */
    method AddFirst(when: int, isLong: bool)
      requires Valid()
      requires IsCInt(when)
      modifies Repr
      ensures Valid() && fresh(Repr - old(Repr))
      ensures elems == [Entry(Narrow(when), isLong)] + old(elems)
      ensures |nodes| == |old(nodes)| + 1 && nodes[1..] == old(nodes) && fresh(nodes[0])
    {
      var node := new Node(Narrow(when), isLong);
      Repr := Repr + {node};
      if head == null {
        node.next, node.prev := node, node;
        head := node;
        length := length + 1;
        nodes := [node];
        elems := [Entry(node.when, node.isLong)];
        return;
      }
      var last := head.prev;
      node.next := head;
      node.prev := last;
      last.next := node;
      head.prev := node;
      head := node;
      length := length + 1;
      nodes := [node] + nodes;
      elems := [Entry(node.when, node.isLong)] + elems;
      SplicedValid(node, true);
    }

    /** `list_add_last`: the new entry is appended behind the current last one; the head stays. */
    method AddLast(when: int, isLong: bool)
      requires Valid()
      requires IsCInt(when)
      modifies Repr
      ensures Valid() && fresh(Repr - old(Repr))
      ensures elems == old(elems) + [Entry(Narrow(when), isLong)]
      ensures |nodes| == |old(nodes)| + 1 && nodes[..|old(nodes)|] == old(nodes) && fresh(nodes[|old(nodes)|])
      ensures old(head) != null ==> head == old(head)
    {
      var node := new Node(Narrow(when), isLong);
      Repr := Repr + {node};
      if head == null {
        node.next, node.prev := node, node;
        head := node;
        length := length + 1;
        nodes := [node];
        elems := [Entry(node.when, node.isLong)];
        return;
      }
      var last := head.prev;
      node.next := head;
      head.prev := node;
      node.prev := last;
      last.next := node;
      length := length + 1;
      nodes := nodes + [node];
      elems := elems + [Entry(node.when, node.isLong)];
      SplicedValid(node, false);
    }

    /**
     * The bookkeeping of the add operations restores the invariant: once a
     * new node is linked in between the last node and the head, it becomes
     * the head (`list_add_first`) or the last node (`list_add_last`).
     */
    twostate lemma SplicedValid(new node: Node, atHead: bool)
      requires old(Valid()) && old(nodes) != []
      requires node !in old(Repr) && Repr == old(Repr) + {node}
      requires nodes == if atHead then [node] + old(nodes) else old(nodes) + [node]
      requires elems == if atHead then [Entry(node.when, node.isLong)] + old(elems)
                        else old(elems) + [Entry(node.when, node.isLong)]
      requires length == old(length) + 1
      requires head == if atHead then node else old(head)
      requires Spliced(old(nodes), node)
      ensures Valid()
    {
    }

    /**
     * `list_delete_node`: a no-op on an empty list or a NULL node; otherwise
     * unlinks `del`, which must be the node at position `k`. Deleting the
     * head moves the head to its successor; deleting the sole node empties
     * the list.
     */
    method DeleteNode(del: Node?, ghost k: nat)
      requires Valid()
      requires head != null && del != null ==> k < |nodes| && nodes[k] == del
      modifies Repr
      ensures Valid() && Repr == old(Repr)
      ensures old(head) == null || del == null ==>
                nodes == old(nodes) && elems == old(elems) && head == old(head)
      ensures old(head) != null && del != null ==>
                && nodes == old(nodes)[..k] + old(nodes)[k + 1..]
                && elems == old(elems)[..k] + old(elems)[k + 1..]
                && head == (if |old(nodes)| == 1 then null
                            else if k == 0 then old(nodes)[1]
                            else old(head))
    {
      if head == null || del == null {
        return;
      }
      var n := |nodes|;
      assert n > 1 ==> del.next != del by {
        if n > 1 {
          if k < n - 1 { assert del.next == nodes[k + 1]; } else { assert del.next == nodes[0]; }
        }
      }
      if del.next == del && del.prev == del && del == head {
        head := null;
        length := 0;
        nodes := [];
        elems := [];
        return;
      }
      ghost var before, after := Before(k, n), After(k, n);
      assert del.prev == nodes[before] && del.next == nodes[after];
      var prev := del.prev;
      if del == head {
        prev := head.prev;
        head := head.next;
        prev.next := head;
        head.prev := prev;
      } else if del.next == head {
        prev.next := head;
        head.prev := prev;
      } else {
        var temp := del.next;
        prev.next := temp;
        temp.prev := prev;
      }
      length := length - 1;
      nodes := nodes[..k] + nodes[k + 1..];
      elems := elems[..k] + elems[k + 1..];
      UnlinkedValid(k);
    }

    /**
     * The bookkeeping of `list_delete_node` restores the invariant: once the
     * neighbours of position `k` point at each other, the sequences lose
     * position `k`, the length drops by one and the head moves on when it was
     * the deleted node, the list is valid again.
     */
    twostate lemma UnlinkedValid(k: nat)
      requires old(Valid())
      requires 2 <= |old(nodes)| && k < |old(nodes)|
      requires nodes == old(nodes)[..k] + old(nodes)[k + 1..]
      requires elems == old(elems)[..k] + old(elems)[k + 1..]
      requires length == old(length) - 1 && Repr == old(Repr)
      requires head == if k == 0 then old(nodes)[1] else old(head)
      requires Relinked(old(nodes), k)
      ensures Valid()
    {
      var s, n := old(nodes), |old(nodes)|;
      RemoveAt(s, old(elems), k);
      assert Distinct(nodes);
      assert Carries(nodes, elems);
      assert forall i :: 0 <= i < |nodes| ==> nodes[i] in Repr;
      assert |nodes| > 0 ==> head == nodes[0];
      var before, after := Before(k, n), After(k, n);
      assert forall i :: 0 <= i < n - 1 ==> nodes[i] == s[if i < k then i else i + 1];
      forall i | 0 <= i < n - 2
        ensures nodes[i].next == nodes[i + 1] && nodes[i + 1].prev == nodes[i]
      {
        var a := if i < k then i else i + 1;
        var b := if i + 1 < k then i + 1 else i + 2;
        assert nodes[i] == s[a] && nodes[i + 1] == s[b];
        if a != before {
          assert b == a + 1 && s[a].next == old(s[a].next);
        }
        if b != after {
          assert b == a + 1 && s[b].prev == old(s[b].prev);
        }
      }
      if k == 0 {
        assert nodes[0] == s[1] && nodes[n - 2] == s[n - 1];
      } else if k == n - 1 {
        assert nodes[0] == s[0] && nodes[n - 2] == s[n - 2];
      } else {
        assert nodes[0] == s[0] && nodes[n - 2] == s[n - 1];
      }
    }

    /** `list_delete_first`: drops the oldest entry; a no-op on an empty list. */
    method DeleteFirst()
      requires Valid()
      modifies Repr
      ensures Valid() && Repr == old(Repr)
      ensures elems == if old(elems) == [] then [] else old(elems)[1..]
      ensures nodes == if old(nodes) == [] then [] else old(nodes)[1..]
    {
      if head != null {
        DeleteNode(head, 0);
      }
    }

    /** `list_delete_last`: drops the newest entry; a no-op on an empty list. */
    method DeleteLast()
      requires Valid()
      modifies Repr
      ensures Valid() && Repr == old(Repr)
      ensures elems == if old(elems) == [] then [] else old(elems)[..|old(elems)| - 1]
      ensures nodes == if old(nodes) == [] then [] else old(nodes)[..|old(nodes)| - 1]
      ensures old(head) != null && |old(nodes)| > 1 ==> head == old(head)
    {
      if head != null {
        DeleteNode(head.prev, |nodes| - 1);
      }
    }

    /**
     * `list_clear`: deletes the head `length` times, leaving the empty list;
     * a no-op on an empty list.
     */
    method Clear()
      requires Valid()
      modifies Repr
      ensures Valid() && Repr == old(Repr)
      ensures head == null && length == 0
      ensures nodes == [] && elems == []
    {
      if head == null {
        return;
      }
      var len := length;
      var curr := head;
      while len > 0
        invariant Valid() && Repr == old(Repr)
        invariant 0 <= len == |nodes| <= |old(nodes)|
        invariant nodes == old(nodes)[|old(nodes)| - len..]
        invariant len > 0 ==> curr == head
        decreases len
      {
        var next := curr.next;
        DeleteNode(curr, 0);
        len := len - 1;
        curr := next;
      }
    }

    /** In a valid list, for every node `next->prev` and `prev->next` are the node itself. */
    lemma LinksAgree()
      requires Valid()
      ensures forall x :: x in nodes ==> x.next != null && x.prev != null && x.next.prev == x && x.prev.next == x
    {
      var n := |nodes|;
      forall x | x in nodes
        ensures x.next != null && x.prev != null && x.next.prev == x && x.prev.next == x
      {
        var i :| 0 <= i < n && nodes[i] == x;
        var after := if i < n - 1 then i + 1 else 0;
        var before := if i > 0 then i - 1 else n - 1;
        assert x.next == nodes[after] && nodes[after].prev == nodes[i];
        assert x.prev == nodes[before] && nodes[before].next == nodes[i];
      }
    }

    /** The ring invariant in modular form: node `i` links to nodes `(i+1) mod n` and `(i-1) mod n`. */
    lemma RingModular(i: nat)
      requires Valid()
      requires i < |nodes|
      ensures nodes[i].next == nodes[(i + 1) % |nodes|] && nodes[i].prev == nodes[(i - 1 + |nodes|) % |nodes|]
    {
      var n := |nodes|;
      ModOneStep(i + 1, n);
      ModOneStep(i - 1 + n, n);
    }

    /** The node reached from `head` by following `next` the given number of times. */
    ghost function Follow(steps: nat): Node?
      reads this, Repr
    {
      if steps == 0 then head
      else
        var x := Follow(steps - 1);
        if x != null && x in Repr then x.next else null
    }

    lemma {:induction false} FollowWalksRing(steps: nat)
      requires Valid()
      requires 0 < steps <= |nodes|
      ensures Follow(steps) == if steps < |nodes| then nodes[steps] else head
    {
      if steps > 1 {
        FollowWalksRing(steps - 1);
      }
    }

    /**
     * `length` counts the nodes of the ring: following `next` from `head`
     * returns to `head` after exactly `length` steps and not before; an
     * empty list has no head.
     */
    lemma LengthCountsRing()
      requires Valid()
      ensures head == null <==> length == 0
      ensures head != null ==> Follow(length) == head
      ensures forall s :: 0 < s < length ==> Follow(s) != head
    {
      forall s | 0 < s <= length
        ensures Follow(s) == if s < |nodes| then nodes[s] else head
      {
        FollowWalksRing(s);
      }
    }
  }
}

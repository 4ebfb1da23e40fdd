/**
 * The earlier draft of the sentinel list (doubeLinkedList.c): a list block
 * holding only the head and tail pointers, without a cursor. Nodes are the
 * ones of DoubleLinkedList (the draft calls the links `successor` and
 * `predecessor`; here they are `next` and `prev`).
 */
module DraftList {
  import opened DoubleLinkedList

  class Draft {
    var head: Node?
    var tail: Node?

    /** The nodes from head to tail; empty when the head pointer is NULL. */
    ghost var nodes: seq<Node>
    ghost var Repr: set<object>

    /**
     * A NULL head means no nodes at all. Otherwise the nodes from head to
     * tail are pairwise distinct, each one's `next` is its successor and each
     * one's `prev` its predecessor, head has no predecessor and tail no
     * successor.
     */
    ghost predicate Valid()
      reads this, Repr
    {
      && this in Repr
      && (head == null ==> nodes == [])
      && (head != null ==>
            && |nodes| >= 2 && nodes[0] == head && nodes[|nodes| - 1] == tail
            && (forall i :: 0 <= i < |nodes| ==> nodes[i] in Repr)
            && (forall i, j :: 0 <= i < j < |nodes| ==> nodes[i] != nodes[j])
            && head.prev == null && nodes[|nodes| - 1].next == null
            && (forall i :: 0 <= i < |nodes| - 1 ==> nodes[i].next == nodes[i + 1])
            && (forall i :: 0 < i < |nodes| ==> nodes[i].prev == nodes[i - 1]))
    }

    /** The list block with the two sentinels linked to each other. */
    constructor ()
      ensures Valid() && fresh(Repr)
      ensures head != null && tail != null && head != tail
      ensures head.next == tail && tail.prev == head
      ensures head.prev == null && tail.next == null
      ensures nodes == [head, tail]
    {
      var h := new Node(0);
      var t := new Node(0);
      h.next := t;
      t.prev := h;
      head, tail := h, t;
      nodes := [h, t];
      Repr := {this, h, t};
    }
  }

  /**
   * createDoubleLinkedList: a new list whose head and tail are two fresh
   * sentinels linked to each other, with no data node between them. The
   * draft does not check its three allocations, so the model lets them
   * succeed.
   */
  method CreateDoubleLinkedList() returns (list: Draft)
    ensures fresh(list) && fresh(list.Repr) && list.Valid()
    ensures list.head != null && list.tail != null && list.head != list.tail
    ensures list.head.next == list.tail && list.tail.prev == list.head
    ensures list.head.prev == null && list.tail.next == null
    ensures list.nodes == [list.head, list.tail]
  {
    list := new Draft();
  }

  /**
   * deleteDoubleLinkedList: a NULL list or a list whose head is NULL is left
   * alone; otherwise every node is released, from head along `next`, each
   * exactly once. Releasing is modelled as detaching the node (both links
   * cleared), and `freed` lists the nodes in release order. The result is
   * always NULL.
   * The draft's signature has no `list` parameter although the body uses
   * one; the model takes it as the parameter.
   */
  method DeleteDoubleLinkedList(list: Draft?) returns (r: Draft?, freed: seq<Node>)
    requires list != null ==> list.Valid()
    modifies if list == null then {} else list.Repr
    ensures r == null
    ensures list == null ==> freed == []
    ensures list != null && old(list.head) == null ==> freed == [] && unchanged(old(list.Repr))
    ensures list != null && old(list.head) != null ==> freed == old(list.nodes)
    ensures forall i :: 0 <= i < |freed| ==> freed[i].next == null && freed[i].prev == null
  {
    freed := [];
    r := null;
    if list == null || list.head == null {
      return;
    }
    ghost var ns := list.nodes;
    var cur: Node? := list.head;
    ghost var i := 0;
    while cur != null
      invariant 0 <= i <= |ns| && |ns| >= 2
      invariant forall a, b :: 0 <= a < b < |ns| ==> ns[a] != ns[b]
      invariant forall k :: 0 <= k < |ns| ==> ns[k] in old(list.Repr)
      invariant freed == ns[..i]
      invariant cur == if i < |ns| then ns[i] else null
      invariant forall k :: i <= k < |ns| - 1 ==> ns[k].next == ns[k + 1]
      invariant i < |ns| ==> ns[|ns| - 1].next == null
      invariant forall k :: 0 <= k < i ==> ns[k].next == null && ns[k].prev == null
      decreases |ns| - i
    {
      var nxt := cur.next;
      cur.next := null;
      cur.prev := null;
      freed := freed + [cur];
      cur := nxt;
      i := i + 1;
    }
  }
}

/**
 * The relinking statements of insertAfter, insertBefore and deleteCurrent
 * (doubleLinkedList.c) exactly in the order the C code runs them. Each one
 * reads a link after it has already overwritten it, so the result breaks the
 * rule that a node's predecessor points forward at it again
 * (`x.prev.next == x`). The corrected operations are
 * DoubleLinkedList.InsertAfter, DoubleLinkedList.InsertBefore and
 * DoubleLinkedList.DeleteCurrent.
 *
 * The loop of setIntersection (orderedSet.c) is rendered at the level of the
 * operands' element sequences: the result is a sequence, and inserting after
 * the result's head sentinel becomes prepending to it. The corrected
 * operation is OrderedSets.SetIntersection.
 */
module AsWritten {
  import opened DoubleLinkedList
  import opened SortedSeq

  /**
   * insertAfter as written: `current->next` is pointed at the new node first,
   * so `current->next->prev = newNode` makes the new node its own
   * predecessor, and the old successor still points back at the cursor.
   */
  method InsertAfterAsWritten(list: List, newdata: int) returns (newNode: Node)
    requires list.Valid() && list.current != list.tail
    modifies list.current
    ensures fresh(newNode) && newNode.d == newdata
    ensures list.current.next == newNode && newNode.next == old(list.current.next)
    ensures newNode.prev == newNode
    ensures old(list.current.next) != null && unchanged(old(list.current.next))
    ensures old(list.current.next).prev == list.current
    ensures old(list.current.next).prev.next != old(list.current.next)
  {
    CursorFacts(list);
    assert list.current.next == list.nodes[list.cursor + 1];
    var c := list.current;
    newNode := new Node(newdata);
    newNode.next := c.next;
    newNode.prev := c;
    c.next := newNode;
    c.next.prev := newNode;
  }

  /**
   * insertBefore as written: `current->prev` is pointed at the new node
   * first, so `current->prev->next = newNode` makes the new node its own
   * successor, and the old predecessor still points forward at the cursor.
   */
  method InsertBeforeAsWritten(list: List, newdata: int) returns (newNode: Node)
    requires list.Valid() && list.current != list.head
    modifies list.current
    ensures fresh(newNode) && newNode.d == newdata
    ensures list.current.prev == newNode && newNode.prev == old(list.current.prev)
    ensures newNode.next == newNode
    ensures old(list.current.prev) != null && unchanged(old(list.current.prev))
    ensures old(list.current.prev).next == list.current
    ensures list.current.prev.next != list.current
  {
    CursorFacts(list);
    assert list.current.prev == list.nodes[list.cursor - 1];
    var c := list.current;
    newNode := new Node(newdata);
    newNode.next := c;
    newNode.prev := c.prev;
    c.prev := newNode;
    c.prev.next := newNode;
  }

  /**
   * deleteCurrent as written: `current->prev` is overwritten with the
   * successor's `prev`, which is the cursor's node itself, before it is
   * used. The four assignments then only make the node its own predecessor:
   * the successor and the node still point at each other and the old
   * predecessor still points forward at the node, which therefore stays in
   * the list.
   */
  method DeleteCurrentAsWritten(list: List)
    requires list.Valid() && list.current != list.head && list.current != list.tail
    modifies list.current, list.current.next
    ensures list.current == old(list.current)
    ensures list.current.prev == list.current
    ensures list.current.next == old(list.current.next)
    ensures old(list.current.next) != null && old(list.current.next).prev == list.current
    ensures old(list.current.prev) != null && unchanged(old(list.current.prev))
    ensures old(list.current.prev).next == list.current
  {
    CursorFacts(list);
    assert list.current.next == list.nodes[list.cursor + 1];
    assert list.current.prev == list.nodes[list.cursor - 1];
    assert list.nodes[list.cursor - 1] != list.nodes[list.cursor];
    assert list.nodes[list.cursor + 1] != list.nodes[list.cursor];
    assert list.nodes[list.cursor - 1] != list.nodes[list.cursor + 1];
    var c := list.current;
    c.prev := c.next.prev;
    c.next.prev := c.prev;
    c.next := c.prev.next;
    c.prev.next := c.next;
  }

  /** Values strictly decrease from left to right. */
  ghost predicate StrictlyDescending(s: seq<int>) {
    forall i, j :: 0 <= i < j < |s| ==> s[i] > s[j]
  }

  /**
   * setIntersection as written (orderedSet.c), on the operands' element
   * sequences: for each element of `a` the whole of `b` is rescanned, and
   * every match is inserted right after the result's head sentinel, where
   * the result's cursor stays. The result holds the right values but in
   * descending order, so as soon as two values are common it is no longer
   * an ordered set. OrderedSets.SetIntersection builds it ascending.
   */
  method IntersectionAsWritten(a: seq<int>, b: seq<int>) returns (r: seq<int>)
    requires StrictlyAscending(a) && StrictlyAscending(b)
    ensures forall y :: y in r <==> y in a && y in b
    ensures StrictlyDescending(r)
    ensures |r| >= 2 ==> !StrictlyAscending(r)
  {
    r := [];
    var i := 0;
    while i < |a|
      invariant 0 <= i <= |a|
      invariant forall y :: y in r <==> y in a[..i] && y in b
      invariant StrictlyDescending(r)
    {
      forall k | 0 <= k < |r| ensures r[k] < a[i] {
        assert r[k] in r;
        var m :| 0 <= m < i && a[m] == r[k];
      }
      var j := 0;
      while j < |b|
        invariant 0 <= j <= |b|
        invariant forall y :: y in r <==> (y in a[..i] && y in b) || (y == a[i] && y in b[..j])
        invariant StrictlyDescending(r)
        invariant forall k :: 0 <= k < |r| ==> r[k] <= a[i]
      {
        if a[i] == b[j] {
          assert a[i] !in b[..j];
          assert a[i] !in a[..i];
          r := [b[j]] + r;
        }
        j := j + 1;
      }
      assert a[..i + 1] == a[..i] + [a[i]];
      i := i + 1;
    }
    if |r| >= 2 {
      assert r[0] > r[1];
    }
  }
}

/**
 * The sentinel-bounded doubly linked list with a cursor (doubleLinkedList.c).
 *
 * A list owns a head sentinel and a tail sentinel that carry no data, and a
 * `current` cursor that may rest on any node, sentinels included. The ghost
 * sequence `nodes` lists every node from head to tail, `Contents` the payloads
 * strictly between the sentinels, and `cursor` is the index of `current` in
 * `nodes` (0 is the head sentinel, |Contents| + 1 the tail sentinel).
 *
 * Every C function takes a possibly-NULL list pointer, so the operations are
 * module-level methods over `List?`. Allocation failure (malloc returning NULL)
 * is an explicit boolean argument.
 */
module DoubleLinkedList {

  /** Status codes shared by the list and the ordered set. */
  datatype ReturnValue =
    | Ok
    | NumberAlreadyInSet
    | NumberNotInSet
    | NumberAdded
    | NumberRemoved
    | AllocationError

  datatype Option<T> = None | Some(value: T)

  /** One list cell: an integer payload and the two links. */
  class Node {
    var d: int
    var next: Node?
    var prev: Node?

    constructor (d: int)
      ensures this.d == d && next == null && prev == null
    {
      this.d := d;
      next := null;
      prev := null;
    }

    /** A node allocated with its links already set. */
    constructor Linked(d: int, prev: Node?, next: Node?)
      ensures this.d == d && this.prev == prev && this.next == next
    {
      this.d := d;
      this.prev := prev;
      this.next := next;
    }
  }

  class List {
    var head: Node
    var tail: Node
    var current: Node

    ghost var nodes: seq<Node>
    ghost var Contents: seq<int>
    ghost var cursor: nat
    ghost var Repr: set<object>

    /**
     * Sentinel integrity: the nodes from head to tail are pairwise distinct,
     * each one's `next` is its successor and each one's `prev` its
     * predecessor, head has no predecessor, tail no successor, and the
     * cursor rests on one of them.
     */
    ghost predicate Valid()
      reads this, Repr
    {
      && this in Repr
      && |nodes| == |Contents| + 2
      && (forall i :: 0 <= i < |nodes| ==> nodes[i] in Repr)
      && nodes[0] == head && nodes[|nodes| - 1] == tail
      && cursor < |nodes| && current == nodes[cursor]
      && (forall i, j :: 0 <= i < j < |nodes| ==> nodes[i] != nodes[j])
      && head.prev == null && tail.next == null
      && (forall i :: 0 <= i < |nodes| - 1 ==> nodes[i].next == nodes[i + 1])
      && (forall i :: 0 < i < |nodes| ==> nodes[i].prev == nodes[i - 1])
      && (forall i :: 0 <= i < |Contents| ==> nodes[i + 1].d == Contents[i])
    }

    /** The two sentinels linked to each other, cursor at head. */
    constructor ()
      ensures Valid() && fresh(Repr)
      ensures Contents == [] && cursor == 0
      ensures head.next == tail && tail.prev == head
      ensures head.prev == null && tail.next == null
      ensures current == head && head != tail
    {
      var h := new Node(0);
      var t := new Node(0);
      h.next := t;
      t.prev := h;
      head, tail, current := h, t, h;
      nodes := [h, t];
      Contents := [];
      cursor := 0;
      Repr := {this, h, t};
    }
  }

  /** A node of the list is a sentinel exactly when its index is that sentinel's. */
  lemma SentinelIndex(list: List, k: nat)
    requires list.Valid() && k < |list.nodes|
    ensures list.nodes[k] == list.head <==> k == 0
    ensures list.nodes[k] == list.tail <==> k == |list.nodes| - 1
  {
    var ns := list.nodes;
    assert ns[0] != ns[|ns| - 1];
    if k != 0 {
      assert ns[0] != ns[k];
    }
    if k != |ns| - 1 {
      assert ns[k] != ns[|ns| - 1];
    }
  }

  /**
   * SentinelIndex at the cursor: the cursor is on a sentinel exactly when
   * its index is that sentinel's. The two sentinels differ.
   */
  lemma CursorFacts(list: List)
    requires list.Valid()
    ensures list.current == list.head <==> list.cursor == 0
    ensures list.current == list.tail <==> list.cursor == |list.nodes| - 1
    ensures list.head != list.tail
  {
    SentinelIndex(list, list.cursor);
    SentinelIndex(list, 0);
  }

  /** The list holds no data exactly when the head sentinel's successor is the tail sentinel. */
  lemma EmptyIffSentinelsLinked(list: List)
    requires list.Valid()
    ensures list.head.next == list.tail <==> list.Contents == []
  {
    if list.Contents != [] {
      assert list.nodes[1] != list.nodes[|list.nodes| - 1];
    }
  }

  /**
   * createList: three allocations (list block, head, tail); if any fails the
   * blocks obtained so far are released and NULL is returned.
   * The C function falls off its end without `return list;`; the model
   * returns the list, as its documentation states.
   */
  method CreateList(listOk: bool, headOk: bool, tailOk: bool) returns (list: List?)
    ensures list == null <==> !(listOk && headOk && tailOk)
    ensures list != null ==> fresh(list) && fresh(list.Repr) && list.Valid()
    ensures list != null ==> list.Contents == [] && list.current == list.head
    ensures list != null ==> list.head.next == list.tail && list.tail.prev == list.head
    ensures list != null ==> list.head.prev == null && list.tail.next == null
  {
    if !listOk {
      return null;
    }
    if !headOk {
      return null;
    }
    if !tailOk {
      return null;
    }
    list := new List();
  }

  /**
   * getData: NULL for a NULL list, otherwise the payload of the cursor's node
   * (for a sentinel, whatever the sentinel holds). The cursor does not move.
   */
  method GetData(list: List?) returns (r: Option<int>)
    requires list != null ==> list.Valid()
    ensures r.Some? <==> list != null
    ensures list != null && 0 < list.cursor <= |list.Contents| ==>
              r == Some(list.Contents[list.cursor - 1])
  {
    if list == null {
      return None;
    }
    r := Some(list.current.d);
  }

  /**
   * gotoNextNode: one step along `next`. The C code has no sentinel guard, so
   * the model requires that the cursor is not on the tail sentinel.
   */
  method GotoNextNode(list: List?)
    requires list != null ==> list.Valid() && list.current != list.tail
    modifies list
    ensures list != null ==> list.Valid()
    ensures list != null ==> list.cursor == old(list.cursor) + 1
    ensures list != null ==> list.current == old(list.current.next)
    ensures list != null ==> list.nodes == old(list.nodes) && list.Contents == old(list.Contents)
    ensures list != null ==> list.Repr == old(list.Repr)
    ensures list != null ==> list.head == old(list.head) && list.tail == old(list.tail)
  {
    if list == null {
      return;
    }
    CursorFacts(list);
    assert list.current.next == list.nodes[list.cursor + 1];
    list.current := list.current.next;
    list.cursor := list.cursor + 1;
  }

  /**
   * gotoPrevNode: one step along `prev`; the model requires that the cursor
   * is not on the head sentinel.
   */
  method GotoPrevNode(list: List?)
    requires list != null ==> list.Valid() && list.current != list.head
    modifies list
    ensures list != null ==> list.Valid()
    ensures list != null ==> list.cursor == old(list.cursor) - 1
    ensures list != null ==> list.current == old(list.current.prev)
    ensures list != null ==> list.nodes == old(list.nodes) && list.Contents == old(list.Contents)
    ensures list != null ==> list.Repr == old(list.Repr)
    ensures list != null ==> list.head == old(list.head) && list.tail == old(list.tail)
  {
    if list == null {
      return;
    }
    CursorFacts(list);
    assert list.current.prev == list.nodes[list.cursor - 1];
    list.current := list.current.prev;
    list.cursor := list.cursor - 1;
  }

  /** gotoHead: cursor onto the head sentinel; links and payloads untouched. */
  method GotoHead(list: List?)
    requires list != null ==> list.Valid()
    modifies list
    ensures list != null ==> list.Valid() && list.cursor == 0 && list.current == list.head
    ensures list != null ==> list.nodes == old(list.nodes) && list.Contents == old(list.Contents)
    ensures list != null ==> list.Repr == old(list.Repr)
    ensures list != null ==> list.head == old(list.head) && list.tail == old(list.tail)
  {
    if list == null {
      return;
    }
    list.current := list.head;
    list.cursor := 0;
  }

  /** gotoTail: cursor onto the tail sentinel; links and payloads untouched. */
  method GotoTail(list: List?)
    requires list != null ==> list.Valid()
    modifies list
    ensures list != null ==> list.Valid() && list.cursor == |list.Contents| + 1
    ensures list != null ==> list.current == list.tail
    ensures list != null ==> list.nodes == old(list.nodes) && list.Contents == old(list.Contents)
    ensures list != null ==> list.Repr == old(list.Repr)
    ensures list != null ==> list.head == old(list.head) && list.tail == old(list.tail)
  {
    if list == null {
      return;
    }
    list.current := list.tail;
    list.cursor := |list.nodes| - 1;
  }

  /**
   * insertAfter: splice a fresh node holding `newdata` between the cursor's
   * node and its successor; the cursor stays where it is.
   * Deviations of the C code that the model corrects: it assigns
   * `current->next` before using `current->next->prev`, so the new node
   * becomes its own predecessor and the old successor is never relinked
   * (see InsertAfterAsWritten), and it returns no value on success (the
   * model returns Ok). The cursor must not be on the tail sentinel: there
   * is no successor to link to, so the intended splice is undefined, and
   * the C statements as written hang the new node past the tail.
   */
  method InsertAfter(list: List?, newdata: int, alloc: bool) returns (r: ReturnValue)
    requires list != null ==> list.Valid() && list.current != list.tail
    modifies if list == null then {} else list.Repr
    ensures r == if list != null && alloc then Ok else AllocationError
    ensures list != null ==> list.Valid() && fresh(list.Repr - old(list.Repr))
    ensures list != null ==> list.current == old(list.current) && list.cursor == old(list.cursor)
    ensures list != null ==> list.head == old(list.head) && list.tail == old(list.tail)
    ensures list != null && r == Ok ==>
              list.Contents == old(list.Contents)[..old(list.cursor)] + [newdata]
                               + old(list.Contents)[old(list.cursor)..]
    ensures list != null && r != Ok ==> unchanged(list) && list.nodes == old(list.nodes)
  {
    if list == null {
      return AllocationError;
    }
    if !alloc {
      return AllocationError;
    }
    SpliceAfter(list, newdata);
    r := Ok;
  }

  /** The relinking of insertAfter, once the new node could be allocated. */
  method SpliceAfter(list: List, newdata: int)
    requires list.Valid() && list.current != list.tail
    modifies list.Repr
    ensures list.Valid() && fresh(list.Repr - old(list.Repr))
    ensures list.current == old(list.current) && list.cursor == old(list.cursor)
    ensures list.head == old(list.head) && list.tail == old(list.tail)
    ensures list.Contents == old(list.Contents)[..old(list.cursor)] + [newdata]
                             + old(list.Contents)[old(list.cursor)..]
  {
    ghost var ns, cs, k := list.nodes, list.Contents, list.cursor;
    CursorFacts(list);
    assert ns[k + 1] != ns[0] && ns[k] != ns[|ns| - 1];
    var succ := list.current.next;
    var newNode := new Node.Linked(newdata, list.current, succ);
    list.nodes := ns[..k + 1] + [newNode] + ns[k + 1..];
    list.Contents := cs[..k] + [newdata] + cs[k..];
    list.Repr := list.Repr + {newNode};
    list.current.next := newNode;
    succ.prev := newNode;
    SpliceValid(list, ns, cs, k + 1, newNode);
  }

  /**
   * insertBefore: splice a fresh node holding `newdata` between the cursor's
   * node and its predecessor; the cursor stays on the same node, whose index
   * therefore grows by one. The C code has the mirror image of insertAfter's
   * defect (see InsertBeforeAsWritten) and also returns no value on
   * success. The cursor must not be on the head sentinel: there is no
   * predecessor to link to, so the intended splice is undefined, and the C
   * statements as written hang the new node before the head.
   */
  method InsertBefore(list: List?, newdata: int, alloc: bool) returns (r: ReturnValue)
    requires list != null ==> list.Valid() && list.current != list.head
    modifies if list == null then {} else list.Repr
    ensures r == if list != null && alloc then Ok else AllocationError
    ensures list != null ==> list.Valid() && fresh(list.Repr - old(list.Repr))
    ensures list != null ==> list.current == old(list.current)
    ensures list != null ==> list.head == old(list.head) && list.tail == old(list.tail)
    ensures list != null && r == Ok ==> list.cursor == old(list.cursor) + 1
    ensures list != null && r == Ok ==>
              list.Contents == old(list.Contents)[..old(list.cursor) - 1] + [newdata]
                               + old(list.Contents)[old(list.cursor) - 1..]
    ensures list != null && r != Ok ==> unchanged(list) && list.nodes == old(list.nodes)
  {
    if list == null {
      return AllocationError;
    }
    if !alloc {
      return AllocationError;
    }
    CursorFacts(list);
    SpliceBeforeNode(list, list.current, list.cursor, newdata);
    r := Ok;
  }

  /**
   * The relinking of insertBefore at any data node or the tail sentinel
   * `at`, index `k` of the node sequence: a fresh node holding `newdata`
   * goes between `at` and its predecessor. The cursor stays on the same
   * node, whose index grows by one when it is at or after `at`.
   */
  method SpliceBeforeNode(list: List, at: Node, ghost k: nat, newdata: int)
    requires list.Valid() && 0 < k < |list.nodes| && at == list.nodes[k]
    modifies list.Repr
    ensures list.Valid() && fresh(list.Repr - old(list.Repr))
    ensures list.current == old(list.current)
    ensures list.cursor == if old(list.cursor) >= k then old(list.cursor) + 1 else old(list.cursor)
    ensures list.head == old(list.head) && list.tail == old(list.tail)
    ensures list.Contents == old(list.Contents)[..k - 1] + [newdata] + old(list.Contents)[k - 1..]
  {
    ghost var ns, cs, c := list.nodes, list.Contents, list.cursor;
    assert ns[k] != ns[0] && ns[k - 1] != ns[|ns| - 1];
    var pred := at.prev;
    var newNode := new Node.Linked(newdata, pred, at);
    list.nodes := ns[..k] + [newNode] + ns[k..];
    list.Contents := cs[..k - 1] + [newdata] + cs[k - 1..];
    list.cursor := if c >= k then c + 1 else c;
    list.Repr := list.Repr + {newNode};
    at.prev := newNode;
    pred.next := newNode;
    assert list.nodes[list.cursor] == ns[c];
    SpliceValid(list, ns, cs, k, newNode);
  }

  /**
   * The shared proof of both splices: a fresh node placed at index `p` of
   * the node sequence, with its neighbours' links pointing at it, keeps the
   * list valid.
   */
  lemma SpliceValid(list: List, ns: seq<Node>, cs: seq<int>, p: nat, n: Node)
    requires |ns| == |cs| + 2 && 0 < p < |ns|
    requires forall i, j :: 0 <= i < j < |ns| ==> ns[i] != ns[j]
    requires n !in ns
    requires list.nodes == ns[..p] + [n] + ns[p..]
    requires list.Contents == cs[..p - 1] + [n.d] + cs[p - 1..]
    requires list in list.Repr && n in list.Repr
    requires forall i :: 0 <= i < |ns| ==> ns[i] in list.Repr
    requires ns[0] == list.head && ns[|ns| - 1] == list.tail
    requires list.cursor < |list.nodes| && list.current == list.nodes[list.cursor]
    requires list.head.prev == null && list.tail.next == null
    requires n.prev == ns[p - 1] && n.next == ns[p]
    requires ns[p - 1].next == n && ns[p].prev == n
    requires forall i :: 0 <= i < |ns| - 1 && i != p - 1 ==> ns[i].next == ns[i + 1]
    requires forall i :: 0 < i < |ns| && i != p ==> ns[i].prev == ns[i - 1]
    requires forall i :: 0 <= i < |cs| ==> ns[i + 1].d == cs[i]
    ensures list.Valid()
  {
    var ms := list.nodes;
    assert |ms| == |ns| + 1;
    assert forall i :: 0 <= i < p ==> ms[i] == ns[i];
    assert ms[p] == n;
    assert forall i :: p < i < |ms| ==> ms[i] == ns[i - 1];
    forall i, j | 0 <= i < j < |ms| ensures ms[i] != ms[j] {
      if j < p {
      } else if i == p || j == p {
      } else if i < p {
        assert ms[j] == ns[j - 1];
      }
    }
    forall i | 0 <= i < |ms| - 1 ensures ms[i].next == ms[i + 1] {
      if i < p - 1 {
      } else if i == p - 1 {
      } else if i == p {
      } else {
        assert ms[i] == ns[i - 1] && ms[i + 1] == ns[i];
      }
    }
    forall i | 0 < i < |ms| ensures ms[i].prev == ms[i - 1] {
      if i < p {
      } else if i == p {
      } else if i == p + 1 {
      } else {
        assert ms[i] == ns[i - 1] && ms[i - 1] == ns[i - 2];
      }
    }
    forall i | 0 <= i < |list.Contents| ensures ms[i + 1].d == list.Contents[i] {
      if i < p - 1 {
      } else if i == p - 1 {
      } else {
        assert ms[i + 1] == ns[i] && list.Contents[i] == cs[i - 1];
      }
    }
  }

  /**
   * deleteCurrent: unlink the cursor's node so that its former neighbours
   * point at each other. The cursor must rest on a data node: a sentinel
   * has a missing neighbour, so the intended relinking is undefined there;
   * as written, the C code dereferences NULL on the tail sentinel and makes
   * the head sentinel its own predecessor.
   * Deviations of the C code that the model corrects: it overwrites
   * `current->prev` before reading it, which leaves the node in the list
   * (see DeleteCurrentAsWritten); it leaves the cursor on that node;
   * and it returns no value on success. The model moves the cursor to the
   * former successor and returns Ok.
   */
  method DeleteCurrent(list: List?) returns (r: ReturnValue)
    requires list != null ==> list.Valid() && list.current != list.head && list.current != list.tail
    modifies if list == null then {} else list.Repr
    ensures r == if list == null then AllocationError else Ok
    ensures list != null ==> list.Valid() && list.Repr == old(list.Repr) - {old(list.current)}
    ensures list != null ==> list.head == old(list.head) && list.tail == old(list.tail)
    ensures list != null ==> list.cursor == old(list.cursor) && list.current == old(list.current.next)
    ensures list != null ==>
              list.nodes == old(list.nodes)[..old(list.cursor)] + old(list.nodes)[old(list.cursor) + 1..]
    ensures list != null ==>
              list.Contents == old(list.Contents)[..old(list.cursor) - 1]
                               + old(list.Contents)[old(list.cursor)..]
  {
    if list == null {
      return AllocationError;
    }
    CursorFacts(list);
    UnlinkNode(list, list.current, list.cursor);
    r := Ok;
  }

  /**
   * The relinking of deleteCurrent for any data node `victim`, index `k` of
   * the node sequence: its neighbours are joined. A cursor on `victim` moves
   * to its successor; any other cursor stays on its node, whose index drops
   * by one when it was after `victim`.
   */
  method UnlinkNode(list: List, victim: Node, ghost k: nat)
    requires list.Valid() && 0 < k < |list.nodes| - 1 && victim == list.nodes[k]
    modifies list.Repr
    ensures list.Valid() && list.Repr == old(list.Repr) - {victim}
    ensures list.head == old(list.head) && list.tail == old(list.tail)
    ensures list.nodes == old(list.nodes)[..k] + old(list.nodes)[k + 1..]
    ensures list.Contents == old(list.Contents)[..k - 1] + old(list.Contents)[k..]
    ensures old(list.cursor) == k ==> list.cursor == k && list.current == old(victim.next)
    ensures old(list.cursor) != k ==>
              && list.current == old(list.current)
              && list.cursor == if old(list.cursor) > k then old(list.cursor) - 1 else old(list.cursor)
  {
    ghost var ns, cs, c := list.nodes, list.Contents, list.cursor;
    assert ns[k + 1] != ns[0] && ns[k - 1] != ns[|ns| - 1];
    assert list.current == victim <==> c == k;
    var pred, succ := victim.prev, victim.next;
    list.nodes := ns[..k] + ns[k + 1..];
    list.Contents := cs[..k - 1] + cs[k..];
    list.Repr := list.Repr - {victim};
    list.cursor := if c > k then c - 1 else c;
    if list.current == victim {
      list.current := succ;
    }
    pred.next := succ;
    succ.prev := pred;
    UnlinkValid(list, ns, cs, k);
  }

  /** The proof of DeleteCurrent: removing index `p` with its neighbours relinked keeps the list valid. */
  lemma UnlinkValid(list: List, ns: seq<Node>, cs: seq<int>, p: nat)
    requires |ns| == |cs| + 2 && 0 < p < |ns| - 1
    requires forall i, j :: 0 <= i < j < |ns| ==> ns[i] != ns[j]
    requires list.nodes == ns[..p] + ns[p + 1..]
    requires list.Contents == cs[..p - 1] + cs[p..]
    requires list in list.Repr
    requires forall i :: 0 <= i < |ns| && i != p ==> ns[i] in list.Repr
    requires ns[0] == list.head && ns[|ns| - 1] == list.tail
    requires list.cursor < |list.nodes| && list.current == list.nodes[list.cursor]
    requires list.head.prev == null && list.tail.next == null
    requires ns[p - 1].next == ns[p + 1] && ns[p + 1].prev == ns[p - 1]
    requires forall i :: 0 <= i < |ns| - 1 && i != p - 1 && i != p ==> ns[i].next == ns[i + 1]
    requires forall i :: 0 < i < |ns| && i != p && i != p + 1 ==> ns[i].prev == ns[i - 1]
    requires forall i :: 0 <= i < |cs| ==> ns[i + 1].d == cs[i]
    ensures list.Valid()
  {
    var ms := list.nodes;
    assert |ms| == |ns| - 1;
    assert forall i :: 0 <= i < p ==> ms[i] == ns[i];
    assert forall i :: p <= i < |ms| ==> ms[i] == ns[i + 1];
    forall i | 0 <= i < |ms| ensures ms[i] in list.Repr {
      if i >= p {
        assert ms[i] == ns[i + 1];
      }
    }
    forall i, j | 0 <= i < j < |ms| ensures ms[i] != ms[j] {
      if j < p {
      } else if i < p {
        assert ms[j] == ns[j + 1];
      } else {
        assert ms[i] == ns[i + 1] && ms[j] == ns[j + 1];
      }
    }
    forall i | 0 <= i < |ms| - 1 ensures ms[i].next == ms[i + 1] {
      if i < p - 1 {
      } else if i == p - 1 {
      } else {
        assert ms[i] == ns[i + 1] && ms[i + 1] == ns[i + 2];
      }
    }
    forall i | 0 < i < |ms| ensures ms[i].prev == ms[i - 1] {
      if i < p {
      } else if i == p {
      } else {
        assert ms[i] == ns[i + 1] && ms[i - 1] == ns[i];
      }
    }
    forall i | 0 <= i < |list.Contents| ensures ms[i + 1].d == list.Contents[i] {
      if i < p - 1 {
      } else {
        assert ms[i + 1] == ns[i + 2] && list.Contents[i] == cs[i + 1];
      }
    }
  }

  /**
   * deleteList: walk from head along `next`, releasing every node, sentinels
   * included. Release is modelled by detaching the node (both links cleared);
   * `freed` lists the nodes in the order they are released. A NULL list is
   * left alone.
   */
  method DeleteList(list: List?) returns (freed: seq<Node>)
    requires list != null ==> list.Valid()
    modifies if list == null then {} else list.Repr
    ensures list == null ==> freed == []
    ensures list != null ==> freed == old(list.nodes)
    ensures forall i :: 0 <= i < |freed| ==> freed[i].next == null && freed[i].prev == null
  {
    freed := [];
    if list == null {
      return;
    }
    ghost var ns := list.nodes;
    var cur: Node? := list.head;
    ghost var i := 0;
    while cur != null
      invariant 0 <= i <= |ns| && |ns| >= 2
      invariant forall a, b :: 0 <= a < b < |ns| ==> ns[a] != ns[b]
      invariant forall k :: 0 <= k < |ns| ==> ns[k] in old(list.Repr)
      invariant freed == ns[..i]
      invariant cur == if i < |ns| then ns[i] else null
      invariant forall k :: i <= k < |ns| - 1 ==> ns[k].next == ns[k + 1]
      invariant i < |ns| ==> ns[|ns| - 1].next == null
      invariant forall k :: 0 <= k < i ==> ns[k].next == null && ns[k].prev == null
      decreases |ns| - i
    {
      var nxt := cur.next;
      cur.next := null;
      cur.prev := null;
      freed := freed + [cur];
      cur := nxt;
      i := i + 1;
    }
  }
}

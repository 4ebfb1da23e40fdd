/**
 * The ordered set of integers (orderedSet.c): a sentinel list whose payloads
 * strictly ascend, plus an element counter. Elements are added and removed
 * through the list's cursor operations; intersection, union and difference
 * build a fresh set from two operand sets.
 */
module OrderedSets {
  import opened DoubleLinkedList
  import opened SortedSeq

  class OrderedIntSet {
    var list: List
    var size: int
    ghost var Repr: set<object>

    /** Values strictly ascend (hence no duplicates) and `size` counts them. */
    ghost predicate Valid()
      reads this, Repr
    {
      && this in Repr && list in Repr && list.Repr <= Repr && this !in list.Repr
      && list.Valid()
      && StrictlyAscending(list.Contents)
      && size == |list.Contents|
    }

    /** The elements in list order. */
    ghost function Elements(): seq<int>
      reads this, list
    {
      list.Contents
    }

    /**
     * createOrderedIntSet: an empty set with size 0. The C version leaves the
     * head and tail pointers NULL; here the set's list starts with its two
     * linked sentinels.
     */
    constructor ()
      ensures Valid() && fresh(Repr)
      ensures Elements() == [] && size == 0
    {
      list := new List();
      size := 0;
      new;
      Repr := {this} + list.Repr;
    }
  }

  /**
   * The scan shared by addElement and removeElement: a local node pointer
   * starts at the first element and steps along `next` while the value is
   * below `elem`. It stops on the first element not below `elem`, or on the
   * tail sentinel when there is none; `k` is the index of that node in the
   * node sequence, and `found` tells whether it holds `elem` itself. The
   * list, its cursor included, is only read.
   */
  method Seek(list: List, elem: int) returns (p: Node, ghost k: nat, found: bool)
    requires list.Valid() && StrictlyAscending(list.Contents)
    ensures 1 <= k <= |list.Contents| + 1 && p == list.nodes[k]
    ensures forall i :: 0 <= i < k - 1 ==> list.Contents[i] < elem
    ensures k <= |list.Contents| ==> elem <= list.Contents[k - 1]
    ensures found <==> elem in list.Contents
    ensures found ==> k <= |list.Contents| && list.Contents[k - 1] == elem
  {
    ghost var c := list.Contents;
    SentinelIndex(list, 1);
    p := list.head.next;
    k := 1;
    found := false;
    while p != list.tail
      invariant 1 <= k <= |c| + 1 && p == list.nodes[k]
      invariant forall i :: 0 <= i < k - 1 ==> c[i] < elem
      decreases |c| + 1 - k
    {
      SentinelIndex(list, k);
      if p.d >= elem {
        found := p.d == elem;
        if !found {
          NotBeyond(c, elem, k - 1);
        }
        return;
      }
      assert p.next == list.nodes[k + 1];
      p := p.next;
      k := k + 1;
    }
    SentinelIndex(list, k);
    NotBeyond(c, elem, |c|);
  }

  /** In an ascending sequence, a value below position `k` and not at it is nowhere. */
  lemma NotBeyond(c: seq<int>, elem: int, k: nat)
    requires StrictlyAscending(c) && k <= |c|
    requires forall i :: 0 <= i < k ==> c[i] < elem
    requires k < |c| ==> elem < c[k]
    ensures elem !in c
  {

  }

  /**
   * addElement: NULL set or failed node allocation gives AllocationError (the
   * allocation happens before the scan, so even a present value reports it).
   * An empty set gets the new node as its only element. Otherwise the scan
   * stops at the first value not below `elem`: an equal value refuses, a
   * greater one gets the new node spliced in before it, and running off the
   * end appends after the last element. The scan uses a local pointer, so
   * the list's cursor does not move.
   */
  method AddElement(s: OrderedIntSet?, elem: int, alloc: bool) returns (r: ReturnValue)
    requires s != null ==> s.Valid()
    modifies if s == null then {} else s.Repr
    ensures s == null ==> r == AllocationError
    ensures s != null ==> s.Valid() && fresh(s.Repr - old(s.Repr)) && s.list == old(s.list)
    ensures s != null && !alloc ==>
              r == AllocationError && s.Elements() == old(s.Elements()) && s.size == old(s.size)
    ensures s != null && alloc ==>
              && (r == NumberAlreadyInSet <==> elem in old(s.Elements()))
              && (r == NumberAdded <==> elem !in old(s.Elements()))
              && s.Elements() == SortedInsert(old(s.Elements()), elem)
    ensures s != null && r == NumberAdded ==> s.size == old(s.size) + 1
    ensures s != null && r != NumberAdded ==> s.size == old(s.size) && s.Elements() == old(s.Elements())
    ensures s != null ==> s.list.current == old(s.list.current)
  {
    if s == null {
      return AllocationError;
    }
    if !alloc {
      return AllocationError;
    }
    if s.list.head.next == s.list.tail {
      EmptyIffSentinelsLinked(s.list);
      AddToEmpty(s, elem);
      return NumberAdded;
    }
    r := AddInPlace(s, elem);
  }

  /** The empty-set branch of addElement: the new node becomes the only element. */
  method AddToEmpty(s: OrderedIntSet, elem: int)
    requires s.Valid() && s.Elements() == []
    modifies s.Repr
    ensures s.Valid() && fresh(s.Repr - old(s.Repr)) && s.list == old(s.list)
    ensures s.Elements() == [elem] == SortedInsert(old(s.Elements()), elem)
    ensures s.size == old(s.size) + 1
    ensures s.list.current == old(s.list.current)
  {
    SpliceBeforeNode(s.list, s.list.tail, 1, elem);
    s.size := s.size + 1;
    s.Repr := s.Repr + s.list.Repr;
  }

  /**
   * The scanning branch of addElement: an equal value refuses, a greater one
   * gets the new node spliced in before it, and running off the end appends
   * after the last element.
   */
  method AddInPlace(s: OrderedIntSet, elem: int) returns (r: ReturnValue)
    requires s.Valid()
    modifies s.Repr
    ensures s.Valid() && fresh(s.Repr - old(s.Repr)) && s.list == old(s.list)
    ensures r == NumberAlreadyInSet || r == NumberAdded
    ensures r == NumberAdded <==> elem !in old(s.Elements())
    ensures s.Elements() == SortedInsert(old(s.Elements()), elem)
    ensures r == NumberAlreadyInSet ==> s.Elements() == old(s.Elements())
    ensures s.size == if r == NumberAdded then old(s.size) + 1 else old(s.size)
    ensures s.list.current == old(s.list.current)
  {
    ghost var c := s.list.Contents;
    var p, found;
    ghost var k;
    p, k, found := Seek(s.list, elem);
    if found {
      SortedInsertPresent(c, elem);
      return NumberAlreadyInSet;
    }
    // p is the first greater element, or the tail sentinel
    SpliceInto(s, p, k, elem);
    return NumberAdded;
  }

  /**
   * The splice of addElement: a new node holding `elem` goes before `p`,
   * the node at index `k` that follows every smaller element, and the size
   * grows by one.
   */
  method SpliceInto(s: OrderedIntSet, p: Node, ghost k: nat, elem: int)
    requires s.Valid() && 0 < k < |s.list.nodes| && p == s.list.nodes[k]
    requires forall i :: 0 <= i < k - 1 ==> s.Elements()[i] < elem
    requires k <= |s.Elements()| ==> elem < s.Elements()[k - 1]
    modifies s.Repr
    ensures s.Valid() && fresh(s.Repr - old(s.Repr)) && s.list == old(s.list)
    ensures s.Elements() == SortedInsert(old(s.Elements()), elem)
    ensures elem !in old(s.Elements())
    ensures s.size == old(s.size) + 1
    ensures s.list.current == old(s.list.current)
  {
    ghost var c := s.list.Contents;
    SpliceBeforeNode(s.list, p, k, elem);
    s.size := s.size + 1;
    s.Repr := s.Repr + s.list.Repr;
    SortedInsertAt(c, elem, k - 1);
    SortedInsertCorrect(c, elem);
  }

  /**
   * removeElement (declared, no body in the source): the same scan as
   * addElement; an exact match is unlinked and counted down, otherwise the
   * set is left as it is. A NULL set reports AllocationError, as in
   * addElement. The list's cursor stays where it was, unless it rested on
   * the removed node: then it moves on to that node's successor.
   */
  method RemoveElement(s: OrderedIntSet?, elem: int) returns (r: ReturnValue)
    requires s != null ==> s.Valid()
    modifies if s == null then {} else s.Repr
    ensures s == null ==> r == AllocationError
    ensures s != null ==> s.Valid() && s.Repr == old(s.Repr) && s.list == old(s.list)
    ensures s != null ==>
              && (r == NumberRemoved <==> elem in old(s.Elements()))
              && (r == NumberNotInSet <==> elem !in old(s.Elements()))
              && s.Elements() == SortedRemove(old(s.Elements()), elem)
    ensures s != null ==> s.size == if r == NumberRemoved then old(s.size) - 1 else old(s.size)
    ensures s != null && old(CursorOn(s.list, elem)) ==> s.list.current == old(s.list.current.next)
    ensures s != null && !old(CursorOn(s.list, elem)) ==> s.list.current == old(s.list.current)
  {
    if s == null {
      return AllocationError;
    }
    ghost var c := s.list.Contents;
    var p, found;
    ghost var k;
    p, k, found := Seek(s.list, elem);
    if !found {
      SortedRemoveAbsent(c, elem);
      return NumberNotInSet;
    }
    UnlinkFrom(s, p, k, elem);
    return NumberRemoved;
  }

  /**
   * The unlink of removeElement: `p`, the node at index `k`, holds `elem`
   * and leaves the list; the size drops by one.
   */
  method UnlinkFrom(s: OrderedIntSet, p: Node, ghost k: nat, elem: int)
    requires s.Valid() && 0 < k < |s.list.nodes| - 1 && p == s.list.nodes[k]
    requires s.Elements()[k - 1] == elem
    modifies s.Repr
    ensures s.Valid() && s.Repr == old(s.Repr) && s.list == old(s.list)
    ensures s.Elements() == SortedRemove(old(s.Elements()), elem)
    ensures s.size == old(s.size) - 1
    ensures old(CursorOn(s.list, elem)) ==> s.list.current == old(s.list.current.next)
    ensures !old(CursorOn(s.list, elem)) ==> s.list.current == old(s.list.current)
  {
    ghost var c := s.list.Contents;
    ghost var at := s.list.cursor;
    if at != k && 0 < at <= |c| {
      assert c[at - 1] != c[k - 1];
    }
    UnlinkNode(s.list, p, k);
    s.size := s.size - 1;
    SortedRemoveAt(c, elem, k - 1);
    SortedRemoveCorrect(c, elem);
  }

  /** The list's cursor rests on the data node holding `v`. */
  ghost predicate CursorOn(list: List, v: int)
    reads list
  {
    0 < list.cursor <= |list.Contents| && list.Contents[list.cursor - 1] == v
  }

  /**
   * A result set under construction: its list is valid, its cursor parked on
   * the tail sentinel (so that inserting before the cursor appends), and its
   * size counts its elements.
   */
  ghost predicate Building(res: OrderedIntSet)
    reads res, res.list, res.list.Repr
  {
    && res.list.Valid()
    && res !in res.list.Repr
    && res.list.current == res.list.tail
    && res.size == |res.list.Contents|
  }

  /** Add `v` after the last element of a result under construction. */
  method Append(res: OrderedIntSet, v: int)
    requires Building(res)
    modifies res, res.list.Repr
    ensures Building(res) && res.list == old(res.list)
    ensures res.list.Contents == old(res.list.Contents) + [v]
    ensures fresh(res.list.Repr - old(res.list.Repr))
  {
    CursorFacts(res.list);
    var _ := InsertBefore(res.list, v, true);
    res.size := res.size + 1;
  }

  /** A fresh, empty result with its cursor on the tail sentinel. */
  method NewResult() returns (res: OrderedIntSet)
    ensures fresh(res) && fresh(res.list.Repr) && Building(res) && res.list.Contents == []
  {
    res := new OrderedIntSet();
    GotoTail(res.list);
  }

  /** Seal a finished result: it holds `want`, which ascends, so it is a valid set. */
  lemma Sealed(res: OrderedIntSet, want: seq<int>)
    requires Building(res) && res.list.Contents == want && StrictlyAscending(want)
    requires res.Repr == {res} + res.list.Repr
    ensures res.Valid() && res.Elements() == want
  {
  }

  /** Reading the data node at index `i + 1`: its payload, and its successor. */
  lemma DataNode(list: List, i: nat)
    requires list.Valid() && i < |list.Contents|
    ensures list.nodes[i + 1].d == list.Contents[i]
    ensures list.nodes[i + 1].next == list.nodes[i + 2]
    ensures list.nodes[i + 1] != list.tail
  {
    SentinelIndex(list, i + 1);
  }

  /** The result under construction shares no object with operand `s`. */
  ghost predicate Apart(res: OrderedIntSet, s: OrderedIntSet)
    reads res, res.list, s
  {
    res !in s.Repr && res.list.Repr !! s.Repr
  }

  /**
   * A walk over operand `s`, whose elements are `a`: `p` is the node holding
   * `a[i]`, or the tail sentinel once `i == |a|`.
   */
  ghost predicate Walking(s: OrderedIntSet, a: seq<int>, i: int, p: Node)
    reads s, s.Repr
  {
    s.Valid() && s.Elements() == a && 0 <= i <= |a| && p == s.list.nodes[i + 1]
  }

  /** A walk stands on the tail sentinel exactly when it has passed every element. */
  lemma WalkDone(s: OrderedIntSet, a: seq<int>, i: int, p: Node)
    requires Walking(s, a, i, p)
    ensures p == s.list.tail <==> i == |a|
  {
    SentinelIndex(s.list, i + 1);
  }

  /**
   * setIntersection: a new set holding exactly the values present in both
   * operands. The operands are only read.
   * The C version rescans `s2` for every element of `s1` and adds each match
   * with insertAfter while the result's cursor stays on the head sentinel,
   * which builds the result in descending order; the model walks both
   * operands once, in step, and appends, so the result ascends.
   */
  method SetIntersection(s1: OrderedIntSet, s2: OrderedIntSet) returns (res: OrderedIntSet)
    requires s1.Valid() && s2.Valid()
    ensures fresh(res.Repr) && res.Valid()
    ensures res.Elements() == Intersect(s1.Elements(), s2.Elements())
    ensures forall y :: y in res.Elements() <==> y in s1.Elements() && y in s2.Elements()
  {
    res := NewResult();
    IntersectInto(s1, s2, res);
    res.Repr := {res} + res.list.Repr;
    IntersectCorrect(s1.Elements(), s2.Elements());
    Sealed(res, Intersect(s1.Elements(), s2.Elements()));
  }

  /**
   * One step of the intersection walk, reading the operands only: a common
   * front value is taken (`take`) and both walks advance; otherwise the walk
   * with the smaller front value advances.
   */
  method IntersectPick(s1: OrderedIntSet, s2: OrderedIntSet, ghost a: seq<int>, ghost b: seq<int>,
                       p1: Node, p2: Node, ghost i: nat, ghost j: nat)
    returns (take: bool, v: int, q1: Node, q2: Node, ghost i': nat, ghost j': nat)
    requires Walking(s1, a, i, p1) && Walking(s2, b, j, p2) && i < |a| && j < |b|
    ensures Walking(s1, a, i', q1) && Walking(s2, b, j', q2) && i + j < i' + j'
    ensures take ==> Intersect(a[i..], b[j..]) == [v] + Intersect(a[i'..], b[j'..])
    ensures !take ==> Intersect(a[i..], b[j..]) == Intersect(a[i'..], b[j'..])
    ensures v == a[i] && (take <==> a[i] == b[j])
    ensures a[i] == b[j] ==> i' == i + 1 && j' == j + 1
    ensures a[i] < b[j] ==> i' == i + 1 && j' == j
    ensures b[j] < a[i] ==> i' == i && j' == j + 1
  {
    DataNode(s1.list, i);
    DataNode(s2.list, j);
    IntersectStep(a, b, i, j);
    v := p1.d;
    take := p1.d == p2.d;
    if take {
      q1, q2, i', j' := p1.next, p2.next, i + 1, j + 1;
    } else if p1.d < p2.d {
      q1, q2, i', j' := p1.next, p2, i + 1, j;
    } else {
      q1, q2, i', j' := p1, p2.next, i, j + 1;
    }
  }

  /** One step of the intersection pass: pick, and append a taken value to the result. */
  method IntersectRound(s1: OrderedIntSet, s2: OrderedIntSet, res: OrderedIntSet,
                        ghost a: seq<int>, ghost b: seq<int>, p1: Node, p2: Node, ghost i: nat, ghost j: nat)
    returns (q1: Node, q2: Node, ghost i': nat, ghost j': nat)
    requires Walking(s1, a, i, p1) && Walking(s2, b, j, p2)
    requires p1 != s1.list.tail && p2 != s2.list.tail
    requires Building(res) && Apart(res, s1) && Apart(res, s2)
    requires res.list.Contents + Intersect(a[i..], b[j..]) == Intersect(a, b)
    modifies res, res.list.Repr
    ensures Walking(s1, a, i', q1) && Walking(s2, b, j', q2) && i + j < i' + j'
    ensures Building(res) && Apart(res, s1) && Apart(res, s2) && res.list == old(res.list)
    ensures fresh(res.list.Repr - old(res.list.Repr))
    ensures res.list.Contents + Intersect(a[i'..], b[j'..]) == Intersect(a, b)
  {
    SentinelIndex(s1.list, i + 1);
    SentinelIndex(s2.list, j + 1);
    var take, v;
    take, v, q1, q2, i', j' := IntersectPick(s1, s2, a, b, p1, p2, i, j);
    if take {
      ghost var c := res.list.Contents;
      Append(res, v);
      Shift(c, v, Intersect(a[i'..], b[j'..]), Intersect(a, b));
    }
  }

  /** The pass of setIntersection: step until either walk reaches its tail sentinel. */
  method IntersectInto(s1: OrderedIntSet, s2: OrderedIntSet, res: OrderedIntSet)
    requires s1.Valid() && s2.Valid() && Building(res) && res.list.Contents == []
    requires Apart(res, s1) && Apart(res, s2)
    modifies res, res.list.Repr
    ensures Building(res) && res.list == old(res.list)
    ensures fresh(res.list.Repr - old(res.list.Repr))
    ensures res.list.Contents == Intersect(s1.Elements(), s2.Elements())
  {
    ghost var a, b := s1.Elements(), s2.Elements();
    SentinelIndex(s1.list, 1);
    SentinelIndex(s2.list, 1);
    var p1: Node := s1.list.head.next;
    var p2: Node := s2.list.head.next;
    ghost var i, j := 0, 0;
    while p1 != s1.list.tail && p2 != s2.list.tail
      invariant Walking(s1, a, i, p1) && Walking(s2, b, j, p2)
      invariant Building(res) && res.list == old(res.list) && Apart(res, s1) && Apart(res, s2)
      invariant fresh(res.list.Repr - old(res.list.Repr))
      invariant res.list.Contents + Intersect(a[i..], b[j..]) == Intersect(a, b)
      decreases |a| - i + |b| - j
    {
      p1, p2, i, j := IntersectRound(s1, s2, res, a, b, p1, p2, i, j);
    }
    WalkDone(s1, a, i, p1);
    WalkDone(s2, b, j, p2);
  }

  /**
   * setUnion: a new set holding exactly the values present in either
   * operand, each once. The operands are only read.
   * The C version copies `s1` in reverse order, never moves the result's
   * cursor back from the tail once it got there, and never appends a value
   * of `s2` above everything already present; the model merges the two
   * ascending walks.
   */
  method SetUnion(s1: OrderedIntSet, s2: OrderedIntSet) returns (res: OrderedIntSet)
    requires s1.Valid() && s2.Valid()
    ensures fresh(res.Repr) && res.Valid()
    ensures res.Elements() == Union(s1.Elements(), s2.Elements())
    ensures forall y :: y in res.Elements() <==> y in s1.Elements() || y in s2.Elements()
  {
    res := NewResult();
    UnionInto(s1, s2, res);
    res.Repr := {res} + res.list.Repr;
    UnionCorrect(s1.Elements(), s2.Elements());
    Sealed(res, Union(s1.Elements(), s2.Elements()));
  }

  /**
   * One step of the union walk, reading the operands only: the smaller
   * front value is taken (a common one once) and its walk or walks advance;
   * a walk that reached its tail sentinel counts as larger than everything.
   */
  method UnionPick(s1: OrderedIntSet, s2: OrderedIntSet, ghost a: seq<int>, ghost b: seq<int>,
                   p1: Node, p2: Node, ghost i: nat, ghost j: nat)
    returns (v: int, q1: Node, q2: Node, ghost i': nat, ghost j': nat)
    requires Walking(s1, a, i, p1) && Walking(s2, b, j, p2) && (i < |a| || j < |b|)
    ensures Walking(s1, a, i', q1) && Walking(s2, b, j', q2) && i + j < i' + j'
    ensures Union(a[i..], b[j..]) == [v] + Union(a[i'..], b[j'..])
    ensures UnionAdvance(a, b, i, j, v, i', j')
  {
    SentinelIndex(s1.list, i + 1);
    SentinelIndex(s2.list, j + 1);
    if i < |a| {
      DataNode(s1.list, i);
    }
    if j < |b| {
      DataNode(s2.list, j);
    }
    UnionStep(a, b, i, j);
    if p2 == s2.list.tail || (p1 != s1.list.tail && p1.d < p2.d) {
      v, q1, q2, i', j' := p1.d, p1.next, p2, i + 1, j;
    } else if p1 == s1.list.tail || p2.d < p1.d {
      v, q1, q2, i', j' := p2.d, p1, p2.next, i, j + 1;
    } else {
      v, q1, q2, i', j' := p1.d, p1.next, p2.next, i + 1, j + 1;
    }
  }

  /**
   * The union walk's choice: the smaller front value is taken and its walk
   * advances (an exhausted walk counts as larger than everything); a common
   * front value is taken once and both walks advance.
   */
  ghost predicate UnionAdvance(a: seq<int>, b: seq<int>, i: nat, j: nat, v: int, i': nat, j': nat) {
    && (i < |a| && (j >= |b| || a[i] < b[j]) ==> v == a[i] && i' == i + 1 && j' == j)
    && (j < |b| && (i >= |a| || b[j] < a[i]) ==> v == b[j] && i' == i && j' == j + 1)
    && (i < |a| && j < |b| && a[i] == b[j] ==> v == a[i] && i' == i + 1 && j' == j + 1)
  }

  /** One step of the union pass: pick, and append the picked value to the result. */
  method UnionRound(s1: OrderedIntSet, s2: OrderedIntSet, res: OrderedIntSet,
                    ghost a: seq<int>, ghost b: seq<int>, p1: Node, p2: Node, ghost i: nat, ghost j: nat)
    returns (q1: Node, q2: Node, ghost i': nat, ghost j': nat)
    requires Walking(s1, a, i, p1) && Walking(s2, b, j, p2)
    requires p1 != s1.list.tail || p2 != s2.list.tail
    requires Building(res) && Apart(res, s1) && Apart(res, s2)
    requires res.list.Contents + Union(a[i..], b[j..]) == Union(a, b)
    modifies res, res.list.Repr
    ensures Walking(s1, a, i', q1) && Walking(s2, b, j', q2) && i + j < i' + j'
    ensures Building(res) && Apart(res, s1) && Apart(res, s2) && res.list == old(res.list)
    ensures fresh(res.list.Repr - old(res.list.Repr))
    ensures res.list.Contents + Union(a[i'..], b[j'..]) == Union(a, b)
  {
    SentinelIndex(s1.list, i + 1);
    SentinelIndex(s2.list, j + 1);
    var v;
    v, q1, q2, i', j' := UnionPick(s1, s2, a, b, p1, p2, i, j);
    ghost var c := res.list.Contents;
    Append(res, v);
    Shift(c, v, Union(a[i'..], b[j'..]), Union(a, b));
  }

  /** The pass of setUnion: step until both walks reach their tail sentinels. */
  method UnionInto(s1: OrderedIntSet, s2: OrderedIntSet, res: OrderedIntSet)
    requires s1.Valid() && s2.Valid() && Building(res) && res.list.Contents == []
    requires Apart(res, s1) && Apart(res, s2)
    modifies res, res.list.Repr
    ensures Building(res) && res.list == old(res.list)
    ensures fresh(res.list.Repr - old(res.list.Repr))
    ensures res.list.Contents == Union(s1.Elements(), s2.Elements())
  {
    ghost var a, b := s1.Elements(), s2.Elements();
    SentinelIndex(s1.list, 1);
    SentinelIndex(s2.list, 1);
    var p1: Node := s1.list.head.next;
    var p2: Node := s2.list.head.next;
    ghost var i, j := 0, 0;
    while p1 != s1.list.tail || p2 != s2.list.tail
      invariant Walking(s1, a, i, p1) && Walking(s2, b, j, p2)
      invariant Building(res) && res.list == old(res.list) && Apart(res, s1) && Apart(res, s2)
      invariant fresh(res.list.Repr - old(res.list.Repr))
      invariant res.list.Contents + Union(a[i..], b[j..]) == Union(a, b)
      decreases |a| - i + |b| - j
    {
      p1, p2, i, j := UnionRound(s1, s2, res, a, b, p1, p2, i, j);
    }
    WalkDone(s1, a, i, p1);
    WalkDone(s2, b, j, p2);
  }

  /**
   * setDifference (declared, no body in the source): a new set holding the
   * values of `s1` that are not in `s2` (s1 minus s2, not s2 minus s1).
   */
  method SetDifference(s1: OrderedIntSet, s2: OrderedIntSet) returns (res: OrderedIntSet)
    requires s1.Valid() && s2.Valid()
    ensures fresh(res.Repr) && res.Valid()
    ensures res.Elements() == Difference(s1.Elements(), s2.Elements())
    ensures forall y :: y in res.Elements() <==> y in s1.Elements() && y !in s2.Elements()
  {
    res := NewResult();
    DifferenceInto(s1, s2, res);
    res.Repr := {res} + res.list.Repr;
    DifferenceCorrect(s1.Elements(), s2.Elements());
    Sealed(res, Difference(s1.Elements(), s2.Elements()));
  }

  /**
   * One step of the difference walk, reading the operands only: a front
   * value of `s1` below that of `s2` (or with `s2` exhausted) is taken,
   * equal front values are both skipped, a smaller front value of `s2` is
   * skipped.
   */
  method DifferencePick(s1: OrderedIntSet, s2: OrderedIntSet, ghost a: seq<int>, ghost b: seq<int>,
                        p1: Node, p2: Node, ghost i: nat, ghost j: nat)
    returns (take: bool, v: int, q1: Node, q2: Node, ghost i': nat, ghost j': nat)
    requires Walking(s1, a, i, p1) && Walking(s2, b, j, p2) && i < |a|
    ensures Walking(s1, a, i', q1) && Walking(s2, b, j', q2) && i + j < i' + j'
    ensures take ==> Difference(a[i..], b[j..]) == [v] + Difference(a[i'..], b[j'..])
    ensures !take ==> Difference(a[i..], b[j..]) == Difference(a[i'..], b[j'..])
    ensures v == a[i] && (take <==> j == |b| || a[i] < b[j])
    ensures take ==> i' == i + 1 && j' == j
    ensures j < |b| && a[i] == b[j] ==> i' == i + 1 && j' == j + 1
    ensures j < |b| && b[j] < a[i] ==> i' == i && j' == j + 1
  {
    SentinelIndex(s2.list, j + 1);
    DataNode(s1.list, i);
    if j < |b| {
      DataNode(s2.list, j);
    }
    DifferenceStep(a, b, i, j);
    v := p1.d;
    take := p2 == s2.list.tail || p1.d < p2.d;
    if take {
      q1, q2, i', j' := p1.next, p2, i + 1, j;
    } else if p1.d == p2.d {
      q1, q2, i', j' := p1.next, p2.next, i + 1, j + 1;
    } else {
      q1, q2, i', j' := p1, p2.next, i, j + 1;
    }
  }

  /** One step of the difference pass: pick, and append a taken value to the result. */
  method DifferenceRound(s1: OrderedIntSet, s2: OrderedIntSet, res: OrderedIntSet,
                         ghost a: seq<int>, ghost b: seq<int>, p1: Node, p2: Node, ghost i: nat, ghost j: nat)
    returns (q1: Node, q2: Node, ghost i': nat, ghost j': nat)
    requires Walking(s1, a, i, p1) && Walking(s2, b, j, p2)
    requires p1 != s1.list.tail
    requires Building(res) && Apart(res, s1) && Apart(res, s2)
    requires res.list.Contents + Difference(a[i..], b[j..]) == Difference(a, b)
    modifies res, res.list.Repr
    ensures Walking(s1, a, i', q1) && Walking(s2, b, j', q2) && i + j < i' + j'
    ensures Building(res) && Apart(res, s1) && Apart(res, s2) && res.list == old(res.list)
    ensures fresh(res.list.Repr - old(res.list.Repr))
    ensures res.list.Contents + Difference(a[i'..], b[j'..]) == Difference(a, b)
  {
    SentinelIndex(s1.list, i + 1);
    var take, v;
    take, v, q1, q2, i', j' := DifferencePick(s1, s2, a, b, p1, p2, i, j);
    if take {
      ghost var c := res.list.Contents;
      Append(res, v);
      Shift(c, v, Difference(a[i'..], b[j'..]), Difference(a, b));
    }
  }

  /** The pass of setDifference: step until the walk over `s1` reaches its tail sentinel. */
  method DifferenceInto(s1: OrderedIntSet, s2: OrderedIntSet, res: OrderedIntSet)
    requires s1.Valid() && s2.Valid() && Building(res) && res.list.Contents == []
    requires Apart(res, s1) && Apart(res, s2)
    modifies res, res.list.Repr
    ensures Building(res) && res.list == old(res.list)
    ensures fresh(res.list.Repr - old(res.list.Repr))
    ensures res.list.Contents == Difference(s1.Elements(), s2.Elements())
  {
    ghost var a, b := s1.Elements(), s2.Elements();
    SentinelIndex(s1.list, 1);
    SentinelIndex(s2.list, 1);
    var p1: Node := s1.list.head.next;
    var p2: Node := s2.list.head.next;
    ghost var i, j := 0, 0;
    while p1 != s1.list.tail
      invariant Walking(s1, a, i, p1) && Walking(s2, b, j, p2)
      invariant Building(res) && res.list == old(res.list) && Apart(res, s1) && Apart(res, s2)
      invariant fresh(res.list.Repr - old(res.list.Repr))
      invariant res.list.Contents + Difference(a[i..], b[j..]) == Difference(a, b)
      decreases |a| - i + |b| - j
    {
      p1, p2, i, j := DifferenceRound(s1, s2, res, a, b, p1, p2, i, j);
    }
    WalkDone(s1, a, i, p1);
  }
}

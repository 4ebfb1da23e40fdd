/**
 * The value-level specification of an ordered integer set: a strictly
 * ascending sequence, and the insert, remove, intersection, union and
 * difference operations on such sequences. The list-based operations of
 * OrderedSets are proved to produce exactly these sequences.
 *
 * Intersection, union and difference are written as the two-pointer merge
 * the set operations perform: inspect the two front elements, emit the
 * smaller (or the common one) and advance.
 */
module SortedSeq {

  /** Values strictly increase from left to right, so none is repeated. */
  ghost predicate StrictlyAscending(s: seq<int>) {
    forall i, j :: 0 <= i < j < |s| ==> s[i] < s[j]
  }

  /** Insert `x` at its place in `s`; a value already present leaves `s` as it is. */
  function SortedInsert(s: seq<int>, x: int): seq<int> {
    if s == [] then [x]
    else if x == s[0] then s
    else if x < s[0] then [x] + s
    else [s[0]] + SortedInsert(s[1..], x)
  }

  /** Remove `x` from `s`; scanning stops at the first value not below `x`. */
  function SortedRemove(s: seq<int>, x: int): seq<int> {
    if s == [] then []
    else if x == s[0] then s[1..]
    else if x < s[0] then s
    else [s[0]] + SortedRemove(s[1..], x)
  }

  /** The values common to `a` and `b`, by a two-pointer merge. */
  function Intersect(a: seq<int>, b: seq<int>): seq<int>
    decreases |a| + |b|
  {
    if a == [] || b == [] then []
    else if a[0] == b[0] then [a[0]] + Intersect(a[1..], b[1..])
    else if a[0] < b[0] then Intersect(a[1..], b)
    else Intersect(a, b[1..])
  }

  /** The values of `a` or `b`, each once, by a two-pointer merge. */
  function Union(a: seq<int>, b: seq<int>): seq<int>
    decreases |a| + |b|
  {
    if a == [] then b
    else if b == [] then a
    else if a[0] == b[0] then [a[0]] + Union(a[1..], b[1..])
    else if a[0] < b[0] then [a[0]] + Union(a[1..], b)
    else [b[0]] + Union(a, b[1..])
  }

  /** The values of `a` that are not in `b` (a minus b, not b minus a). */
  function Difference(a: seq<int>, b: seq<int>): seq<int>
    decreases |a| + |b|
  {
    if a == [] then []
    else if b == [] then a
    else if a[0] == b[0] then Difference(a[1..], b[1..])
    else if a[0] < b[0] then [a[0]] + Difference(a[1..], b)
    else Difference(a, b[1..])
  }

  // ---------------------------------------------------------------------
  // Basic facts about ascending sequences

  /** The first element of an ascending sequence is its least, and only it can equal it. */
  lemma HeadIsLeast(s: seq<int>)
    requires StrictlyAscending(s) && s != []
    ensures forall y :: y in s[1..] ==> s[0] < y
    ensures forall y :: y in s ==> s[0] <= y
  {
    forall y | y in s[1..] ensures s[0] < y {
      var k :| 0 <= k < |s[1..]| && s[1..][k] == y;
      assert s[k + 1] == y;
    }
  }

  lemma TailAscending(s: seq<int>)
    requires StrictlyAscending(s) && s != []
    ensures StrictlyAscending(s[1..])
  {
    forall i, j | 0 <= i < j < |s[1..]| ensures s[1..][i] < s[1..][j] {
      assert s[1..][i] == s[i + 1] && s[1..][j] == s[j + 1];
    }
  }

  /** Prefixing a value below every element keeps a sequence ascending. */
  lemma ConsAscending(h: int, r: seq<int>)
    requires StrictlyAscending(r)
    requires forall y :: y in r ==> h < y
    ensures StrictlyAscending([h] + r)
  {
    var s := [h] + r;
    forall i, j | 0 <= i < j < |s| ensures s[i] < s[j] {
      assert s[j] == r[j - 1];
      assert r[j - 1] in r;
      if i > 0 {
        assert s[i] == r[i - 1];
      }
    }
  }

  /** Strictly ascending sequences are determined by their elements. */
  lemma {:induction false} AscendingUnique(a: seq<int>, b: seq<int>)
    requires StrictlyAscending(a) && StrictlyAscending(b)
    requires forall y :: y in a <==> y in b
    ensures a == b
    decreases |a|
  {
    // one is empty exactly when the other is
    if a != [] {
      assert a[0] in a;
    }
    if b != [] {
      assert b[0] in b;
    }
    if a != [] && b != [] {
      HeadIsLeast(a);
      HeadIsLeast(b);
      assert a[0] in b && b[0] in a;
      assert a[0] == b[0];
      TailAscending(a);
      TailAscending(b);
      forall y ensures y in a[1..] <==> y in b[1..] {
        assert y in a <==> y == a[0] || y in a[1..] by {
          assert a == [a[0]] + a[1..];
        }
        assert y in b <==> y == b[0] || y in b[1..] by {
          assert b == [b[0]] + b[1..];
        }
      }
      AscendingUnique(a[1..], b[1..]);
      assert a == [a[0]] + a[1..] && b == [b[0]] + b[1..];
    }
  }

  // ---------------------------------------------------------------------
  // Insert and remove

  /** addElement's promise: order kept, the new element joins, the length grows by one exactly when it was absent. */
  lemma {:induction false} SortedInsertCorrect(s: seq<int>, x: int)
    requires StrictlyAscending(s)
    ensures StrictlyAscending(SortedInsert(s, x))
    ensures forall y :: y in SortedInsert(s, x) <==> y in s || y == x
    ensures |SortedInsert(s, x)| == if x in s then |s| else |s| + 1
  {
    if s == [] {
    } else if x == s[0] {
    } else if x < s[0] {
      HeadIsLeast(s);
      ConsAscending(x, s);
    } else {
      HeadIsLeast(s);
      TailAscending(s);
      SortedInsertCorrect(s[1..], x);
      var r := SortedInsert(s[1..], x);
      assert s == [s[0]] + s[1..];
      ConsAscending(s[0], r);
    }
  }

  /** Inserting where the scan stops: after the values below `x`, before the first one above it. */
  lemma {:induction false} SortedInsertAt(s: seq<int>, x: int, k: nat)
    requires k <= |s|
    requires forall i :: 0 <= i < k ==> s[i] < x
    requires k < |s| ==> x < s[k]
    ensures SortedInsert(s, x) == s[..k] + [x] + s[k..]
  {
    if k > 0 {
      var t := s[1..];
      assert forall i :: 0 <= i < k - 1 ==> t[i] == s[i + 1];
      SortedInsertAt(t, x, k - 1);
      assert SortedInsert(s, x) == [s[0]] + SortedInsert(t, x);
      assert s[..k] == [s[0]] + t[..k - 1];
      assert s[k..] == t[k - 1..];
    } else {
      assert s[..k] == [] && s[k..] == s;
    }
  }

  /** Inserting a value that is already there changes nothing. */
  lemma {:induction false} SortedInsertPresent(s: seq<int>, x: int)
    requires StrictlyAscending(s) && x in s
    ensures SortedInsert(s, x) == s
  {
    if x != s[0] {
      HeadIsLeast(s);
      TailAscending(s);
      SortedInsertPresent(s[1..], x);
      assert s == [s[0]] + s[1..];
    }
  }

  /** removeElement's promise: order kept, `x` leaves, the length drops by one exactly when it was present. */
  lemma {:induction false} SortedRemoveCorrect(s: seq<int>, x: int)
    requires StrictlyAscending(s)
    ensures StrictlyAscending(SortedRemove(s, x))
    ensures forall y :: y in SortedRemove(s, x) <==> y in s && y != x
    ensures |SortedRemove(s, x)| == if x in s then |s| - 1 else |s|
  {
    if s == [] {
    } else if x == s[0] {
      HeadIsLeast(s);
      TailAscending(s);
      assert s == [s[0]] + s[1..];
    } else if x < s[0] {
      HeadIsLeast(s);
    } else {
      HeadIsLeast(s);
      TailAscending(s);
      SortedRemoveCorrect(s[1..], x);
      assert s == [s[0]] + s[1..];
      ConsAscending(s[0], SortedRemove(s[1..], x));
    }
  }

  /** Removing the value found at index `k` cuts exactly that position out. */
  lemma SortedRemoveAt(s: seq<int>, x: int, k: nat)
    requires StrictlyAscending(s) && k < |s| && s[k] == x
    ensures SortedRemove(s, x) == s[..k] + s[k + 1..]
  {
    SortedRemoveAfter(s, x, k);
  }

  /** The scan of SortedRemove passes the values below `x` and cuts out the first `x`. */
  lemma {:induction false} SortedRemoveAfter(s: seq<int>, x: int, k: nat)
    requires k < |s| && s[k] == x
    requires forall i :: 0 <= i < k ==> s[i] < x
    ensures SortedRemove(s, x) == s[..k] + s[k + 1..]
  {
    if k > 0 {
      var t := s[1..];
      assert forall i :: 0 <= i < k - 1 ==> t[i] == s[i + 1];
      SortedRemoveAfter(t, x, k - 1);
      assert SortedRemove(s, x) == [s[0]] + SortedRemove(t, x);
      assert s[..k] == [s[0]] + t[..k - 1];
      assert s[k + 1..] == t[k..];
    } else {
      assert s[k + 1..] == s[1..];
    }
  }

  /** Removing a value that is not there changes nothing. */
  lemma {:induction false} SortedRemoveAbsent(s: seq<int>, x: int)
    requires StrictlyAscending(s) && x !in s
    ensures SortedRemove(s, x) == s
  {
    if s != [] && x > s[0] {
      TailAscending(s);
      SortedRemoveAbsent(s[1..], x);
      assert s == [s[0]] + s[1..];
    }
  }

  /** Adding an absent value and removing it again gives back the original set. */
  lemma {:induction false} RemoveUndoesInsert(s: seq<int>, x: int)
    requires StrictlyAscending(s) && x !in s
    ensures SortedRemove(SortedInsert(s, x), x) == s
  {
    if s != [] && x > s[0] {
      TailAscending(s);
      RemoveUndoesInsert(s[1..], x);
      assert s == [s[0]] + s[1..];
    }
  }

  /** Removing a present value and adding it again gives back the original set. */
  lemma {:induction false} InsertUndoesRemove(s: seq<int>, x: int)
    requires StrictlyAscending(s) && x in s
    ensures SortedInsert(SortedRemove(s, x), x) == s
  {
    if x == s[0] {
      HeadIsLeast(s);
      assert s == [s[0]] + s[1..];
      if s[1..] != [] {
        assert s[1] == s[1..][0];
      }
    } else {
      HeadIsLeast(s);
      TailAscending(s);
      InsertUndoesRemove(s[1..], x);
      assert s == [s[0]] + s[1..];
    }
  }

  // ---------------------------------------------------------------------
  // Set algebra

  /** Moving one value from the front of the pending part to the end of the finished part. */
  lemma Shift(done: seq<int>, x: int, rest: seq<int>, total: seq<int>)
    requires done + ([x] + rest) == total
    ensures (done + [x]) + rest == total
  {
  }

  /** One step of the intersection merge on the suffixes a[i..] and b[j..]. */
  lemma IntersectStep(a: seq<int>, b: seq<int>, i: nat, j: nat)
    requires i < |a| && j < |b|
    ensures Intersect(a[i..], b[j..]) ==
              if a[i] == b[j] then [a[i]] + Intersect(a[i + 1..], b[j + 1..])
              else if a[i] < b[j] then Intersect(a[i + 1..], b[j..])
              else Intersect(a[i..], b[j + 1..])
  {
    assert a[i..][1..] == a[i + 1..] && b[j..][1..] == b[j + 1..];
  }

  /** One step of the union merge on the suffixes a[i..] and b[j..]. */
  lemma UnionStep(a: seq<int>, b: seq<int>, i: nat, j: nat)
    requires i <= |a| && j <= |b| && (i < |a| || j < |b|)
    ensures Union(a[i..], b[j..]) ==
              if j == |b| || (i < |a| && a[i] < b[j]) then [a[i]] + Union(a[i + 1..], b[j..])
              else if i == |a| || b[j] < a[i] then [b[j]] + Union(a[i..], b[j + 1..])
              else [a[i]] + Union(a[i + 1..], b[j + 1..])
  {
    if i < |a| {
      assert a[i..] == [a[i]] + a[i + 1..];
    }
    if j < |b| {
      assert b[j..] == [b[j]] + b[j + 1..];
    }
  }

  /** One step of the difference merge on the suffixes a[i..] and b[j..]. */
  lemma DifferenceStep(a: seq<int>, b: seq<int>, i: nat, j: nat)
    requires i < |a| && j <= |b|
    ensures Difference(a[i..], b[j..]) ==
              if j == |b| || a[i] < b[j] then [a[i]] + Difference(a[i + 1..], b[j..])
              else if a[i] == b[j] then Difference(a[i + 1..], b[j + 1..])
              else Difference(a[i..], b[j + 1..])
  {
    assert a[i..] == [a[i]] + a[i + 1..];
    if j < |b| {
      assert b[j..] == [b[j]] + b[j + 1..];
    }
  }

  /** Intersection: ascending, and exactly the values present in both operands. */
  lemma {:induction false} IntersectCorrect(a: seq<int>, b: seq<int>)
    requires StrictlyAscending(a) && StrictlyAscending(b)
    ensures StrictlyAscending(Intersect(a, b))
    ensures forall y :: y in Intersect(a, b) <==> y in a && y in b
    decreases |a| + |b|
  {
    if a != [] && b != [] {
      HeadIsLeast(a);
      HeadIsLeast(b);
      TailAscending(a);
      TailAscending(b);
      assert a == [a[0]] + a[1..] && b == [b[0]] + b[1..];
      if a[0] == b[0] {
        IntersectCorrect(a[1..], b[1..]);
        ConsAscending(a[0], Intersect(a[1..], b[1..]));
      } else if a[0] < b[0] {
        IntersectCorrect(a[1..], b);
      } else {
        IntersectCorrect(a, b[1..]);
      }
    }
  }

  /** Union: ascending, and exactly the values present in either operand. */
  lemma {:induction false} UnionCorrect(a: seq<int>, b: seq<int>)
    requires StrictlyAscending(a) && StrictlyAscending(b)
    ensures StrictlyAscending(Union(a, b))
    ensures forall y :: y in Union(a, b) <==> y in a || y in b
    decreases |a| + |b|
  {
    if a != [] && b != [] {
      HeadIsLeast(a);
      HeadIsLeast(b);
      TailAscending(a);
      TailAscending(b);
      assert a == [a[0]] + a[1..] && b == [b[0]] + b[1..];
      if a[0] == b[0] {
        UnionCorrect(a[1..], b[1..]);
        ConsAscending(a[0], Union(a[1..], b[1..]));
      } else if a[0] < b[0] {
        UnionCorrect(a[1..], b);
        ConsAscending(a[0], Union(a[1..], b));
      } else {
        UnionCorrect(a, b[1..]);
        ConsAscending(b[0], Union(a, b[1..]));
      }
    }
  }

  /** Difference: ascending, and exactly the values of the first operand absent from the second. */
  lemma {:induction false} DifferenceCorrect(a: seq<int>, b: seq<int>)
    requires StrictlyAscending(a) && StrictlyAscending(b)
    ensures StrictlyAscending(Difference(a, b))
    ensures forall y :: y in Difference(a, b) <==> y in a && y !in b
    decreases |a| + |b|
  {
    if a != [] && b != [] {
      HeadIsLeast(a);
      HeadIsLeast(b);
      TailAscending(a);
      TailAscending(b);
      assert a == [a[0]] + a[1..] && b == [b[0]] + b[1..];
      if a[0] == b[0] {
        DifferenceCorrect(a[1..], b[1..]);
      } else if a[0] < b[0] {
        DifferenceCorrect(a[1..], b);
        ConsAscending(a[0], Difference(a[1..], b));
      } else {
        DifferenceCorrect(a, b[1..]);
      }
    }
  }

  /** Intersection does not depend on the order of its operands. */
  lemma IntersectCommutes(a: seq<int>, b: seq<int>)
    requires StrictlyAscending(a) && StrictlyAscending(b)
    ensures Intersect(a, b) == Intersect(b, a)
  {
    IntersectCorrect(a, b);
    IntersectCorrect(b, a);
    AscendingUnique(Intersect(a, b), Intersect(b, a));
  }

  /** Union does not depend on the order of its operands. */
  lemma UnionCommutes(a: seq<int>, b: seq<int>)
    requires StrictlyAscending(a) && StrictlyAscending(b)
    ensures Union(a, b) == Union(b, a)
  {
    UnionCorrect(a, b);
    UnionCorrect(b, a);
    AscendingUnique(Union(a, b), Union(b, a));
  }

  /** The union of a set with itself is that set. */
  lemma {:induction false} UnionIdempotent(a: seq<int>)
    ensures Union(a, a) == a
  {
    if a != [] {
      UnionIdempotent(a[1..]);
      assert a == [a[0]] + a[1..];
    }
  }

  /** The intersection of a set with itself is that set. */
  lemma {:induction false} IntersectIdempotent(a: seq<int>)
    ensures Intersect(a, a) == a
  {
    if a != [] {
      IntersectIdempotent(a[1..]);
      assert a == [a[0]] + a[1..];
    }
  }

  /** A set minus itself is empty. */
  lemma {:induction false} DifferenceSelfEmpty(a: seq<int>)
    ensures Difference(a, a) == []
  {
    if a != [] {
      DifferenceSelfEmpty(a[1..]);
    }
  }

  /** Difference is not symmetric: {1,2,3} minus {2,3,4} is {1}, the reverse is {4}. */
  lemma DifferenceNotSymmetric()
    ensures Difference([1, 2, 3], [2, 3, 4]) == [1]
    ensures Difference([2, 3, 4], [1, 2, 3]) == [4]
  {
    assert [1, 2, 3][1..] == [2, 3];
    assert [2, 3][1..] == [3];
    assert [2, 3, 4][1..] == [3, 4];
    assert [3, 4][1..] == [4];
  }
}

/**
 * Connection lists.
 *
 * Every user node of the network heads a singly linked list of neighbour IDs,
 * newest first. The model keeps such a list as a `seq<int>` in list order; this
 * module holds what the network does to one list: unlink every node holding an
 * ID (removing a user), unlink the first such node (removing a connection), and
 * the ascending sort the breadth-first traversal applies before enqueueing.
 */
module ConnectionLists {

  /** No ID occurs twice in the list. */
  predicate NoDup(s: seq<int>) {
    forall i, j :: 0 <= i < j < |s| ==> s[i] != s[j]
  }

  /** The list with every node holding `x` unlinked, the others kept in order. */
  function RemoveAll(s: seq<int>, x: int): (r: seq<int>)
    ensures multiset(r) == multiset(s)[x := 0]
    ensures |r| <= |s|
  {
    if s == [] then []
    else
      assert s == [s[0]] + s[1..];
      if s[0] == x then RemoveAll(s[1..], x)
      else [s[0]] + RemoveAll(s[1..], x)
  }

  /** The list with only the first node holding `x` unlinked. */
  function RemoveFirst(s: seq<int>, x: int): (r: seq<int>)
    ensures x in s ==> |r| == |s| - 1
    ensures x !in s ==> r == s
  {
    if s == [] then []
    else
      assert s == [s[0]] + s[1..];
      if s[0] == x then s[1..]
      else [s[0]] + RemoveFirst(s[1..], x)
  }

  /** Position of the first node holding `x`. */
  function IndexOf(s: seq<int>, x: int): (i: nat)
    requires x in s
    ensures i < |s| && s[i] == x && x !in s[..i]
  {
    if s[0] == x then 0 else 1 + IndexOf(s[1..], x)
  }

  /** Removing every occurrence keeps exactly the other IDs. */
  lemma {:induction false} RemoveAllMembers(s: seq<int>, x: int, y: int)
    ensures y in RemoveAll(s, x) <==> y in s && y != x
  {
    assert y in RemoveAll(s, x) <==> multiset(RemoveAll(s, x))[y] > 0;
    assert y in s <==> multiset(s)[y] > 0;
  }

  /** Unlinking keeps a duplicate-free list duplicate-free. */
  lemma {:induction false} RemoveAllNoDup(s: seq<int>, x: int)
    requires NoDup(s)
    ensures NoDup(RemoveAll(s, x))
  {
    if s != [] {
      RemoveAllNoDup(s[1..], x);
      if s[0] != x {
        RemoveAllMembers(s[1..], x, s[0]);
        assert s[0] !in s[1..];
      }
    }
  }

  /** When `x` is absent there is nothing to unlink. */
  lemma {:induction false} RemoveAllAbsent(s: seq<int>, x: int)
    requires x !in s
    ensures RemoveAll(s, x) == s
  {
    if s != [] {
      RemoveAllAbsent(s[1..], x);
      assert s == [s[0]] + s[1..];
    }
  }

  /**
   * Unlinking the first node holding `x` cuts the list at the first
   * occurrence and keeps everything else in order.
   */
  lemma {:induction false} RemoveFirstSplits(s: seq<int>, x: int)
    requires x in s
    ensures RemoveFirst(s, x) == s[..IndexOf(s, x)] + s[IndexOf(s, x) + 1..]
  {
    if s[0] != x {
      var t := s[1..];
      var k := IndexOf(t, x);
      RemoveFirstSplits(t, x);
      calc {
        RemoveFirst(s, x);
        [s[0]] + RemoveFirst(t, x);
        [s[0]] + (t[..k] + t[k + 1..]);
        { assert [s[0]] + t[..k] == s[..k + 1]; assert t[k + 1..] == s[k + 2..]; }
        s[..k + 1] + s[k + 2..];
      }
    }
  }

  /** In a duplicate-free list the first occurrence is the only one. */
  lemma {:induction false} RemoveFirstIsRemoveAll(s: seq<int>, x: int)
    requires NoDup(s)
    ensures RemoveFirst(s, x) == RemoveAll(s, x)
  {
    if s != [] {
      if s[0] == x {
        assert x !in s[1..];
        RemoveAllAbsent(s[1..], x);
      } else {
        RemoveFirstIsRemoveAll(s[1..], x);
      }
    }
  }

  /**
   * The unlink loop of removeUser on one connection list: walk the list with a
   * reference to the previous node and drop every node whose ID is `x`.
   */
  method UnlinkAll(list: seq<int>, x: int) returns (r: seq<int>)
    ensures r == RemoveAll(list, x)
  {
    r := [];
    var i := 0;
    while i < |list|
      invariant 0 <= i <= |list|
      invariant r + RemoveAll(list[i..], x) == RemoveAll(list, x)
    {
      assert list[i..][1..] == list[i + 1..];
      if list[i] != x {
        r := r + [list[i]];
      }
      i := i + 1;
    }
    assert list[i..] == [];
  }

  /**
   * The unlink loop of removeConnection on one connection list: walk the list
   * and bypass the first node whose ID is `x`, then stop.
   */
  method UnlinkFirst(list: seq<int>, x: int) returns (r: seq<int>)
    ensures r == RemoveFirst(list, x)
  {
    var i := 0;
    while i < |list|
      invariant 0 <= i <= |list|
      invariant x !in list[..i]
    {
      if list[i] == x {
        assert IndexOf(list, x) == i;
        RemoveFirstSplits(list, x);
        r := list[..i] + list[i + 1..];
        return;
      }
      assert list[..i + 1] == list[..i] + [list[i]];
      i := i + 1;
    }
    assert list[..i] == list;
    r := list;
  }

  /** Ascending order, as std::sort leaves a vector of IDs. */
  predicate Ascending(s: seq<int>) {
    forall i, j :: 0 <= i < j < |s| ==> s[i] <= s[j]
  }

  /** Prepending an element no larger than the rest keeps the list ascending. */
  lemma ConsAscending(x: int, s: seq<int>)
    requires Ascending(s)
    requires forall y | y in s :: x <= y
    ensures Ascending([x] + s)
  {
    var r := [x] + s;
    forall i, j | 0 <= i < j < |r| ensures r[i] <= r[j] {
      assert r[j] == s[j - 1] && s[j - 1] in s;
      if i > 0 { assert r[i] == s[i - 1]; }
    }
  }

  /** Insert `x` in front of the first element not below it. */
  function Insert(x: int, s: seq<int>): seq<int> {
    if s == [] || x <= s[0] then [x] + s
    else [s[0]] + Insert(x, s[1..])
  }

  /** Inserting into an ascending list keeps it ascending and adds exactly `x`. */
  lemma {:induction false} InsertSorts(x: int, s: seq<int>)
    requires Ascending(s)
    ensures Ascending(Insert(x, s))
    ensures multiset(Insert(x, s)) == multiset(s) + multiset{x}
  {
    if s == [] || x <= s[0] {
      ConsAscending(x, s);
    } else {
      assert s == [s[0]] + s[1..];
      var t := Insert(x, s[1..]);
      InsertSorts(x, s[1..]);
      assert forall y | y in t :: s[0] <= y by {
        forall y | y in t ensures s[0] <= y {
          assert multiset(t)[y] > 0;
          assert y == x || y in s[1..];
        }
      }
      ConsAscending(s[0], t);
    }
  }

  /** Insertion sort of the neighbour IDs, as std::sort orders them. */
  function SortAscending(s: seq<int>): seq<int> {
    if s == [] then [] else Insert(s[0], SortAscending(s[1..]))
  }

  /** Sorting yields an ascending permutation of the list. */
  lemma {:induction false} SortAscendingSorts(s: seq<int>)
    ensures Ascending(SortAscending(s))
    ensures multiset(SortAscending(s)) == multiset(s)
  {
    if s != [] {
      assert s == [s[0]] + s[1..];
      SortAscendingSorts(s[1..]);
      InsertSorts(s[0], SortAscending(s[1..]));
    }
  }

  /** Sorting keeps exactly the IDs of the list. */
  lemma SortKeepsIds(s: seq<int>)
    ensures forall y :: y in SortAscending(s) <==> y in s
  {
    SortAscendingSorts(s);
    forall y ensures y in SortAscending(s) <==> y in s {
      assert y in SortAscending(s) <==> multiset(SortAscending(s))[y] > 0;
      assert y in s <==> multiset(s)[y] > 0;
    }
  }
}

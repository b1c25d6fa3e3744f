/** A stable sort by a total preorder: the model of pandas' `sort_values`
    and Python's `sorted`. */
module Sorting {

  ghost predicate TotalPreorder<T(!new)>(le: (T, T) -> bool)
  {
    && (forall a, b :: le(a, b) || le(b, a))
    && (forall a, b, c :: le(a, b) && le(b, c) ==> le(a, c))
  }

  ghost predicate SortedBy<T>(s: seq<T>, le: (T, T) -> bool)
  {
    forall i, j :: 0 <= i < j < |s| ==> le(s[i], s[j])
  }

  function Insert<T>(x: T, s: seq<T>, le: (T, T) -> bool): (r: seq<T>)
    ensures |r| == |s| + 1
  {
    if s == [] then [x]
    else if le(x, s[0]) then [x] + s
    else [s[0]] + Insert(x, s[1..], le)
  }

  function InsertionSort<T>(s: seq<T>, le: (T, T) -> bool): (r: seq<T>)
    ensures |r| == |s|
  {
    if s == [] then [] else Insert(s[0], InsertionSort(s[1..], le), le)
  }

  lemma {:induction false} InsertPermutes<T>(x: T, s: seq<T>, le: (T, T) -> bool)
    ensures multiset(Insert(x, s, le)) == multiset(s) + multiset{x}
  {
    if s != [] && !le(x, s[0]) {
      InsertPermutes(x, s[1..], le);
      assert s == [s[0]] + s[1..];
    }
  }

  lemma {:induction false} InsertSorted<T(!new)>(x: T, s: seq<T>, le: (T, T) -> bool)
    requires TotalPreorder(le) && SortedBy(s, le)
    ensures SortedBy(Insert(x, s, le), le)
  {
    if s != [] && !le(x, s[0]) {
      var tail := s[1..];
      assert SortedBy(tail, le);
      InsertSorted(x, tail, le);
      var ins := Insert(x, tail, le);
      assert forall k :: 0 <= k < |tail| ==> tail[k] == s[k + 1];
      InsertBelow(s[0], x, tail, le);
      var r := [s[0]] + ins;
      forall i, j | 0 <= i < j < |r|
        ensures le(r[i], r[j])
      {
        if i > 0 {
          assert r[i] == ins[i - 1] && r[j] == ins[j - 1];
        } else {
          assert r[j] == ins[j - 1];
        }
      }
    }
  }

  /** A lower bound of x and of every element of s bounds every element of
      the list x is inserted into. */
  lemma {:induction false} InsertBelow<T>(y: T, x: T, s: seq<T>, le: (T, T) -> bool)
    requires le(y, x) && forall k :: 0 <= k < |s| ==> le(y, s[k])
    ensures forall k :: 0 <= k < |Insert(x, s, le)| ==> le(y, Insert(x, s, le)[k])
  {
    if s != [] && !le(x, s[0]) {
      var tail := s[1..];
      assert forall k :: 0 <= k < |tail| ==> tail[k] == s[k + 1];
      InsertBelow(y, x, tail, le);
      var ins := Insert(x, s, le);
      forall k | 0 <= k < |ins|
        ensures le(y, ins[k])
      {
        if k > 0 {
          assert ins[k] == Insert(x, tail, le)[k - 1];
        }
      }
    }
  }

  /** The sorted list is ordered by le and holds the same rows. */
  lemma {:induction false} InsertionSortSpec<T(!new)>(s: seq<T>, le: (T, T) -> bool)
    requires TotalPreorder(le)
    ensures SortedBy(InsertionSort(s, le), le)
    ensures multiset(InsertionSort(s, le)) == multiset(s)
  {
    if s != [] {
      InsertionSortSpec(s[1..], le);
      InsertSorted(s[0], InsertionSort(s[1..], le), le);
      InsertPermutes(s[0], InsertionSort(s[1..], le), le);
      assert s == [s[0]] + s[1..];
    }
  }
}

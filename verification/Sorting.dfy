/**
  The stable sort behind `sorted`, `sort` and `Array.prototype.sort`, for any total order: what each program
  sorts by is the order it passes.
 */
module Sorting {
  /** Total and transitive; different elements may be alike. */
  ghost predicate Orders<T(!new)>(le: (T, T) -> bool) {
    && (forall a, b :: le(a, b) || le(b, a))
    && (forall a, b, c :: le(a, b) && le(b, c) ==> le(a, c))
  }

  predicate SortedBy<T>(s: seq<T>, le: (T, T) -> bool) { forall i, j | 0 <= i < j < |s| :: le(s[i], s[j]) }

  function Insert<T>(x: T, sorted: seq<T>, le: (T, T) -> bool): (r: seq<T>)
    ensures multiset(r) == multiset{x} + multiset(sorted) && |r| == |sorted| + 1
  {
    if |sorted| == 0 || le(x, sorted[0]) then [x] + sorted
    else
      assert sorted == [sorted[0]] + sorted[1..];
      [sorted[0]] + Insert(x, sorted[1..], le)
  }

  function Sort<T>(s: seq<T>, le: (T, T) -> bool): (r: seq<T>)
    ensures multiset(r) == multiset(s) && |r| == |s|
  {
    if |s| == 0 then []
    else
      assert s == [s[0]] + s[1..];
      Insert(s[0], Sort(s[1..], le), le)
  }

  lemma SameElements<T>(a: seq<T>, b: seq<T>)
    requires multiset(a) == multiset(b)
    ensures forall x :: x in a <==> x in b
  {
    assert forall x :: x in a <==> x in multiset(a);
    assert forall x :: x in b <==> x in multiset(b);
  }

  lemma FirstSorts<T>(first: T, rest: seq<T>, le: (T, T) -> bool)
    requires SortedBy(rest, le) && forall x | x in rest :: le(first, x)
    ensures SortedBy([first] + rest, le)
  {
    assert forall k | 0 <= k < |rest| :: rest[k] in rest;
  }

  lemma {:induction false} InsertSorts<T(!new)>(x: T, sorted: seq<T>, le: (T, T) -> bool)
    requires Orders(le) && SortedBy(sorted, le)
    ensures SortedBy(Insert(x, sorted, le), le)
  {
    if |sorted| == 0 || le(x, sorted[0]) {
      forall y | y in sorted
        ensures le(x, y)
      {
        var k :| 0 <= k < |sorted| && sorted[k] == y;
        assert k > 0 ==> le(sorted[0], sorted[k]);
      }
      FirstSorts(x, sorted, le);
    } else {
      var rest := Insert(x, sorted[1..], le);
      InsertSorts(x, sorted[1..], le);
      SameElements(rest, [x] + sorted[1..]);
      forall y | y in rest
        ensures le(sorted[0], y)
      {
        if y in sorted[1..] {
          var k :| 1 <= k < |sorted| && sorted[k] == y;
        } else {
          assert y == x;
        }
      }
      FirstSorts(sorted[0], rest, le);
    }
  }

  /** The result is sorted. */
  lemma {:induction false} SortSorts<T(!new)>(s: seq<T>, le: (T, T) -> bool)
    requires Orders(le)
    ensures SortedBy(Sort(s, le), le)
  {
    if |s| > 0 {
      SortSorts(s[1..], le);
      InsertSorts(s[0], Sort(s[1..], le), le);
    }
  }

  /** The elements that the order does not tell from `x`, in their order. */
  function Alike<T>(s: seq<T>, x: T, le: (T, T) -> bool): seq<T> {
    if |s| == 0 then []
    else (if le(s[0], x) && le(x, s[0]) then [s[0]] else []) + Alike(s[1..], x, le)
  }

  lemma {:induction false} InsertIsStable<T(!new)>(y: T, sorted: seq<T>, x: T, le: (T, T) -> bool)
    requires Orders(le)
    ensures Alike(Insert(y, sorted, le), x, le) == Alike([y] + sorted, x, le)
  {
    assert ([y] + sorted)[1..] == sorted;
    if |sorted| > 0 && !le(y, sorted[0]) {
      var rest := Insert(y, sorted[1..], le);
      assert ([sorted[0]] + rest)[1..] == rest;
      assert ([y] + sorted[1..])[1..] == sorted[1..];
      InsertIsStable(y, sorted[1..], x, le);
    }
  }

  /** The sort keeps the order of what it does not tell apart. */
  lemma {:induction false} SortIsStable<T(!new)>(s: seq<T>, x: T, le: (T, T) -> bool)
    requires Orders(le)
    ensures Alike(Sort(s, le), x, le) == Alike(s, x, le)
  {
    if |s| > 0 {
      InsertIsStable(s[0], Sort(s[1..], le), x, le);
      var sorted := Sort(s[1..], le);
      assert ([s[0]] + sorted)[1..] == sorted;
      SortIsStable(s[1..], x, le);
    }
  }
}

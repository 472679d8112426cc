/** Stable sorting by a comparison. */
module Sorting {

  ghost predicate TotalPreorder<T(!new)>(le: (T, T) -> bool) {
    && (forall x, y :: le(x, y) || le(y, x))
    && (forall x, y, z :: le(x, y) && le(y, z) ==> le(x, z))
  }

  ghost predicate SortedBy<T>(le: (T, T) -> bool, s: seq<T>) {
    forall i, j :: 0 <= i < j < |s| ==> le(s[i], s[j])
  }

  /** Puts `x` before the first element it does not exceed. */
  function Insert<T(!new)>(le: (T, T) -> bool, x: T, s: seq<T>): (r: seq<T>)
    ensures |r| == |s| + 1
    ensures forall y :: y in r <==> y == x || y in s
  {
    if s == [] || le(x, s[0]) then [x] + s
    else
      assert s == [s[0]] + s[1..];
      [s[0]] + Insert(le, x, s[1..])
  }

  /** Insertion from the back, so that equal elements keep their order. */
  function Sort<T(!new)>(le: (T, T) -> bool, s: seq<T>): (r: seq<T>)
    ensures |r| == |s|
    ensures forall y :: y in r <==> y in s
  {
    if s == [] then [] else
      assert s == [s[0]] + s[1..];
      Insert(le, s[0], Sort(le, s[1..]))
  }

  lemma SortedCons<T(!new)>(le: (T, T) -> bool, x: T, s: seq<T>)
    requires SortedBy(le, s) && forall y :: y in s ==> le(x, y)
    ensures SortedBy(le, [x] + s)
  {
    var r := [x] + s;
    forall i, j | 0 <= i < j < |r| ensures le(r[i], r[j]) {
      assert r[j] == s[j - 1] && s[j - 1] in s;
      if i > 0 { assert r[i] == s[i - 1]; }
    }
  }

  lemma SortedTail<T(!new)>(le: (T, T) -> bool, s: seq<T>)
    requires SortedBy(le, s) && s != []
    ensures SortedBy(le, s[1..]) && forall y :: y in s[1..] ==> le(s[0], y)
  {
    forall y | y in s[1..] ensures le(s[0], y) {
      var i :| 0 <= i < |s[1..]| && s[1..][i] == y;
      assert s[i + 1] == y;
    }
    forall i, j | 0 <= i < j < |s[1..]| ensures le(s[1..][i], s[1..][j]) {
      assert s[1..][i] == s[i + 1] && s[1..][j] == s[j + 1];
    }
  }

  lemma {:induction false} InsertSorted<T(!new)>(le: (T, T) -> bool, x: T, s: seq<T>)
    requires TotalPreorder(le) && SortedBy(le, s)
    ensures SortedBy(le, Insert(le, x, s))
    ensures multiset(Insert(le, x, s)) == multiset(s) + multiset{x}
  {
    if s == [] || le(x, s[0]) {
      if s != [] {
        SortedTail(le, s);
        assert s == [s[0]] + s[1..];
      }
      SortedCons(le, x, s);
    } else {
      assert s == [s[0]] + s[1..];
      SortedTail(le, s);
      InsertSorted(le, x, s[1..]);
      SortedCons(le, s[0], Insert(le, x, s[1..]));
    }
  }

  lemma {:induction false} SortSorts<T(!new)>(le: (T, T) -> bool, s: seq<T>)
    requires TotalPreorder(le)
    ensures SortedBy(le, Sort(le, s))
    ensures multiset(Sort(le, s)) == multiset(s)
  {
    if s != [] {
      assert s == [s[0]] + s[1..];
      SortSorts(le, s[1..]);
      InsertSorted(le, s[0], Sort(le, s[1..]));
    }
  }

  /** The elements of a list that stand equal to `a`, in order. */
  ghost function Equals<T(!new)>(le: (T, T) -> bool, a: T, s: seq<T>): seq<T> {
    if s == [] then []
    else (if le(a, s[0]) && le(s[0], a) then [s[0]] else []) + Equals(le, a, s[1..])
  }

  lemma NotBothEqual<T(!new)>(le: (T, T) -> bool, a: T, x: T, y: T)
    requires TotalPreorder(le) && !le(x, y)
    ensures !(le(a, x) && le(x, a)) || !(le(a, y) && le(y, a))
  {}

  lemma EqualsCons<T(!new)>(le: (T, T) -> bool, a: T, x: T, s: seq<T>)
    ensures Equals(le, a, [x] + s) == (if le(a, x) && le(x, a) then [x] else []) + Equals(le, a, s)
  {
    assert ([x] + s)[1..] == s;
  }

  lemma {:induction false} InsertKeepsOrder<T(!new)>(le: (T, T) -> bool, a: T, x: T, s: seq<T>)
    requires TotalPreorder(le)
    ensures Equals(le, a, Insert(le, x, s)) == Equals(le, a, [x] + s)
  {
    if s != [] && !le(x, s[0]) {
      hide TotalPreorder, Equals;
      var y, rest := s[0], s[1..];
      assert s == [y] + rest;
      InsertKeepsOrder(le, a, x, rest);
      EqualsCons(le, a, y, Insert(le, x, rest));
      EqualsCons(le, a, x, rest);
      EqualsCons(le, a, x, s);
      EqualsCons(le, a, y, rest);
      NotBothEqual(le, a, x, y);
    }
  }

  /** Elements that stand equal keep their order. */
  lemma {:induction false} SortIsStable<T(!new)>(le: (T, T) -> bool, a: T, s: seq<T>)
    requires TotalPreorder(le)
    ensures Equals(le, a, Sort(le, s)) == Equals(le, a, s)
  {
    if s != [] {
      SortIsStable(le, a, s[1..]);
      InsertKeepsOrder(le, a, s[0], Sort(le, s[1..]));
    }
  }
}

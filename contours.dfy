/**
 * OpenCV contours as the scripts consume them: sequences of points, with
 * the coordinate columns `c[:, :, 0]` and `c[:, :, 1]`, and Python's stable
 * `sorted(..., key=...)`.
 */
module Contours {
  import opened Pixels

  type Contour = seq<Point>

  /** `c[:, :, 0]` */
  function Xs(c: Contour): (v: seq<int>)
    ensures |v| == |c| && forall i :: 0 <= i < |c| ==> v[i] == c[i].x
  {
    seq(|c|, i requires 0 <= i < |c| => c[i].x)
  }

  /** `c[:, :, 1]` */
  function Ys(c: Contour): (v: seq<int>)
    ensures |v| == |c| && forall i :: 0 <= i < |c| ==> v[i] == c[i].y
  {
    seq(|c|, i requires 0 <= i < |c| => c[i].y)
  }

  // ------------------------------------------------------------ sorted(s, key=key)

  /** Places `x` before the first element whose key is not smaller, so equal keys keep their order. */
  function Insert<T>(x: T, s: seq<T>, key: T -> real): (r: seq<T>)
    ensures |r| == |s| + 1
  {
    if |s| == 0 || key(x) <= key(s[0]) then [x] + s
    else [s[0]] + Insert(x, s[1..], key)
  }

  /** Python's `sorted(s, key=key)`: a stable insertion sort. */
  function SortBy<T>(s: seq<T>, key: T -> real): (r: seq<T>)
    ensures |r| == |s|
  {
    if |s| == 0 then [] else Insert(s[0], SortBy(s[1..], key), key)
  }

  predicate SortedBy<T>(s: seq<T>, key: T -> real)
  {
    forall i, j :: 0 <= i < j < |s| ==> key(s[i]) <= key(s[j])
  }

  /** A bound below `x` and below every element of `s` is below every element of the result. */
  lemma {:induction false} InsertBelow<T>(x: T, s: seq<T>, key: T -> real, b: real)
    requires b <= key(x) && forall j :: 0 <= j < |s| ==> b <= key(s[j])
    ensures forall k :: 0 <= k < |s| + 1 ==> b <= key(Insert(x, s, key)[k])
  {
    if |s| > 0 && key(x) > key(s[0]) {
      InsertBelow(x, s[1..], key, b);
    }
  }

  lemma {:induction false} InsertSorted<T>(x: T, s: seq<T>, key: T -> real)
    requires SortedBy(s, key)
    ensures SortedBy(Insert(x, s, key), key)
    ensures multiset(Insert(x, s, key)) == multiset{x} + multiset(s)
  {
    if |s| > 0 && key(x) > key(s[0]) {
      InsertSorted(x, s[1..], key);
      InsertBelow(x, s[1..], key, key(s[0]));
      assert s == [s[0]] + s[1..];
    }
  }

  /** The result is ordered by key and holds the same elements as the input. */
  lemma {:induction false} SortBySorted<T>(s: seq<T>, key: T -> real)
    ensures SortedBy(SortBy(s, key), key)
    ensures multiset(SortBy(s, key)) == multiset(s)
  {
    if |s| > 0 {
      SortBySorted(s[1..], key);
      InsertSorted(s[0], SortBy(s[1..], key), key);
      assert s == [s[0]] + s[1..];
    }
  }

  /** Two elements are swapped exactly when the second has the strictly smaller key. */
  lemma SortTwo<T>(a: T, b: T, key: T -> real)
    ensures SortBy([a, b], key) == if key(b) < key(a) then [b, a] else [a, b]
  {
    assert [a, b][1..] == [b];
    assert [b][1..] == [];
    assert SortBy([b], key) == Insert(b, [], key) == [b];
    assert SortBy([a, b], key) == Insert(a, [b], key);
  }

  /** The identity key, for sorting plain numbers. */
  function Id(r: real): real { r }

  predicate Ascending(s: seq<real>)
  {
    forall i, j :: 0 <= i < j < |s| ==> s[i] <= s[j]
  }

  lemma SortedAscending(s: seq<real>)
    requires SortedBy(s, Id)
    ensures Ascending(s)
  {
    forall i, j | 0 <= i < j < |s| ensures s[i] <= s[j] {
      assert Id(s[i]) <= Id(s[j]);
    }
  }

  /** Dropping the first element removes one copy of it from the multiset. */
  lemma MultisetTail(s: seq<real>)
    requires |s| > 0
    ensures multiset(s[1..]) == multiset(s) - multiset{s[0]}
  {
    assert s == [s[0]] + s[1..];
  }

  /** The head of an ascending sequence is at most any of its elements. */
  lemma AscendingHeadIsLeast(s: seq<real>, x: real)
    requires Ascending(s) && x in multiset(s)
    ensures |s| > 0 && s[0] <= x
  {
    assert x in s;
    var i :| 0 <= i < |s| && s[i] == x;
  }

  lemma AscendingTail(s: seq<real>)
    requires Ascending(s) && |s| > 0
    ensures Ascending(s[1..])
  {
    var s' := s[1..];
    forall i, j | 0 <= i < j < |s'| ensures s'[i] <= s'[j] {
      assert s'[i] == s[i + 1] && s'[j] == s[j + 1];
    }
  }

  /** Ascending sequences with the same numbers start with the same (least) number. */
  lemma AscendingSameHead(s: seq<real>, t: seq<real>)
    requires Ascending(s) && Ascending(t) && multiset(s) == multiset(t) && |s| > 0
    ensures |t| > 0 && s[0] == t[0]
  {
    assert s[0] in multiset(t);
    AscendingHeadIsLeast(t, s[0]);
    assert t[0] in multiset(s);
    AscendingHeadIsLeast(s, t[0]);
  }

  /** Two ascending sequences holding the same numbers are equal: sorting has one answer. */
  lemma {:induction false} AscendingUnique(s: seq<real>, t: seq<real>)
    requires Ascending(s) && Ascending(t) && multiset(s) == multiset(t)
    ensures s == t
    decreases |s|
  {
    if |s| == 0 {
      assert |t| == |multiset(t)| == 0;
    } else {
      AscendingSameHead(s, t);
      MultisetTail(s);
      MultisetTail(t);
      AscendingTail(s);
      AscendingTail(t);
      AscendingUnique(s[1..], t[1..]);
      assert s == [s[0]] + s[1..] && t == [t[0]] + t[1..];
    }
  }
}

/**
 Sequence operations the scripts take from the JavaScript library: `filter`, and the
 stable `sort` with a comparator.  Sorting is unique as soon as the comparator tells the
 elements apart, which is what makes several results independent of their input order.
 */
module Sequences {

  ghost predicate Distinct<T(!new)>(s: seq<T>) {
    forall i, j :: 0 <= i < j < |s| ==> s[i] != s[j]
  }

  lemma {:induction false} DistinctFits<T(!new)>(s: seq<T>, space: set<T>)
    requires Distinct(s)
    requires forall x :: x in s ==> x in space
    ensures |s| <= |space|
  {
    if s != [] {
      var last := s[|s| - 1];
      forall x | x in s[..|s| - 1] ensures x in space - {last} {
        var i :| 0 <= i < |s| - 1 && s[i] == x;
      }
      DistinctFits(s[..|s| - 1], space - {last});
    }
  }

  /** The index of the first occurrence, or -1. */
  function IndexOf<T(==, !new)>(s: seq<T>, x: T): (i: int)
    ensures i == -1 <==> x !in s
    ensures i != -1 ==> 0 <= i < |s| && s[i] == x && x !in s[..i]
  {
    if s == [] then -1
    else if s[0] == x then 0
    else
      var i := IndexOf(s[1..], x);
      if i == -1 then -1 else i + 1
  }

  function Filter<T(!new)>(s: seq<T>, keep: T -> bool): (r: seq<T>)
    ensures forall x :: x in r <==> x in s && keep(x)
  {
    if s == [] then []
    else (if keep(s[0]) then [s[0]] else []) + Filter(s[1..], keep)
  }

  lemma {:induction false} FilterConcat<T(!new)>(a: seq<T>, b: seq<T>, keep: T -> bool)
    ensures Filter(a + b, keep) == Filter(a, keep) + Filter(b, keep)
  {
    if a == [] {
      assert a + b == b;
    } else {
      assert (a + b)[0] == a[0] && (a + b)[1..] == a[1..] + b;
      FilterConcat(a[1..], b, keep);
    }
  }

  lemma FilterNext<T(!new)>(s: seq<T>, k: nat, keep: T -> bool)
    requires k < |s|
    ensures Filter(s[..k + 1], keep) == Filter(s[..k], keep) + if keep(s[k]) then [s[k]] else []
  {
    assert s[..k + 1] == s[..k] + [s[k]];
    FilterConcat(s[..k], [s[k]], keep);
  }

  lemma {:induction false} FilterAll<T(!new)>(s: seq<T>, keep: T -> bool)
    requires forall x :: x in s ==> keep(x)
    ensures Filter(s, keep) == s
  {
    if s != [] {
      assert s[0] in s && forall x :: x in s[1..] ==> x in s;
      FilterAll(s[1..], keep);
    }
  }

  lemma {:induction false} FilterNone<T(!new)>(s: seq<T>, keep: T -> bool)
    requires forall x :: x in s ==> !keep(x)
    ensures Filter(s, keep) == []
  {
    if s != [] {
      assert s[0] in s && forall x :: x in s[1..] ==> x in s;
      FilterNone(s[1..], keep);
    }
  }

  /** Two filters that agree on the elements of a sequence select the same subsequence. */
  lemma {:induction false} FilterAgree<T(!new)>(s: seq<T>, p: T -> bool, q: T -> bool)
    requires forall x :: x in s ==> p(x) == q(x)
    ensures Filter(s, p) == Filter(s, q)
  {
    if s != [] {
      assert s[0] in s && forall x :: x in s[1..] ==> x in s;
      FilterAgree(s[1..], p, q);
    }
  }

  lemma {:induction false} FilterTwice<T(!new)>(s: seq<T>, first: T -> bool, second: T -> bool, both: T -> bool)
    requires forall x :: x in s ==> (both(x) <==> first(x) && second(x))
    ensures Filter(Filter(s, first), second) == Filter(s, both)
  {
    if s != [] {
      assert s[0] in s && forall x :: x in s[1..] ==> x in s;
      FilterTwice(s[1..], first, second, both);
      FilterConcat(if first(s[0]) then [s[0]] else [], Filter(s[1..], first), second);
    }
  }

  ghost predicate SortedBy<T(!new)>(s: seq<T>, lessOrEqual: (T, T) -> bool) {
    forall i, j :: 0 <= i < j < |s| ==> lessOrEqual(s[i], s[j])
  }

  /** A comparator in the JavaScript sense that orders its arguments consistently. */
  ghost predicate Comparator<T(!new)>(compare: (T, T) -> int) {
    && (forall a, b :: compare(a, b) <= 0 || compare(b, a) <= 0)
    && (forall a, b, c :: compare(a, b) <= 0 && compare(b, c) <= 0 ==> compare(a, c) <= 0)
  }

  function Insert<T(!new)>(x: T, s: seq<T>, compare: (T, T) -> int): seq<T> {
    if s == [] || compare(x, s[0]) <= 0 then [x] + s
    else [s[0]] + Insert(x, s[1..], compare)
  }

  /** The stable sort: equal elements keep their order. */
  function Sort<T(!new)>(s: seq<T>, compare: (T, T) -> int): seq<T> {
    if s == [] then [] else Insert(s[0], Sort(s[1..], compare), compare)
  }

  lemma {:induction false} InsertKeepsElements<T(!new)>(x: T, s: seq<T>, compare: (T, T) -> int)
    ensures multiset(Insert(x, s, compare)) == multiset(s) + multiset{x}
  {
    if !(s == [] || compare(x, s[0]) <= 0) {
      InsertKeepsElements(x, s[1..], compare);
      assert s == [s[0]] + s[1..];
    }
  }

  lemma {:induction false} SortKeepsElements<T(!new)>(s: seq<T>, compare: (T, T) -> int)
    ensures multiset(Sort(s, compare)) == multiset(s)
  {
    if s != [] {
      SortKeepsElements(s[1..], compare);
      InsertKeepsElements(s[0], Sort(s[1..], compare), compare);
      assert s == [s[0]] + s[1..];
    }
  }

  lemma SameElements<T(!new)>(a: seq<T>, b: seq<T>)
    requires multiset(a) == multiset(b)
    ensures |a| == |b| && forall x :: x in a <==> x in b
  {
    forall x ensures x in a <==> x in b {
      assert x in a <==> x in multiset(a);
    }
    assert |multiset(a)| == |a| && |multiset(b)| == |b|;
  }

  lemma {:induction false} InsertKeepsSorted<T(!new)>(x: T, s: seq<T>, compare: (T, T) -> int)
    requires Comparator(compare) && SortedBy(s, (a, b) => compare(a, b) <= 0)
    ensures SortedBy(Insert(x, s, compare), (a, b) => compare(a, b) <= 0)
  {
    if s == [] {
    } else if compare(x, s[0]) <= 0 {
      forall y | y in s ensures compare(x, y) <= 0 {
        var j :| 0 <= j < |s| && s[j] == y;
        assert j > 0 ==> compare(s[0], s[j]) <= 0;
      }
      SortedInFront(x, s, compare);
    } else {
      var rest := Insert(x, s[1..], compare);
      InsertKeepsSorted(x, s[1..], compare);
      InsertKeepsElements(x, s[1..], compare);
      SameElements(rest, s[1..] + [x]);
      forall y | y in rest ensures compare(s[0], y) <= 0 {
        assert y in s[1..] + [x];
        if y in s[1..] {
          var j :| 0 <= j < |s[1..]| && s[1..][j] == y;
          assert compare(s[0], s[j + 1]) <= 0;
        }
      }
      SortedInFront(s[0], rest, compare);
    }
  }

  lemma SortedInFront<T(!new)>(first: T, rest: seq<T>, compare: (T, T) -> int)
    requires SortedBy(rest, (a, b) => compare(a, b) <= 0) && forall y :: y in rest ==> compare(first, y) <= 0
    ensures SortedBy([first] + rest, (a, b) => compare(a, b) <= 0)
  {
    var s := [first] + rest;
    forall i, j | 0 <= i < j < |s| ensures compare(s[i], s[j]) <= 0 {
      assert s[j] == rest[j - 1] && rest[j - 1] in rest;
      assert i > 0 ==> s[i] == rest[i - 1];
    }
  }

  lemma {:induction false} SortIsSorted<T(!new)>(s: seq<T>, compare: (T, T) -> int)
    requires Comparator(compare)
    ensures SortedBy(Sort(s, compare), (a, b) => compare(a, b) <= 0)
  {
    if s != [] {
      SortIsSorted(s[1..], compare);
      InsertKeepsSorted(s[0], Sort(s[1..], compare), compare);
    }
  }

  /** Two sorted arrangements of the same elements are equal when the order tells all elements apart. */
  lemma {:induction false} SortedArrangementsAgree<T(!new)>(a: seq<T>, b: seq<T>, lessOrEqual: (T, T) -> bool)
    requires SortedBy(a, lessOrEqual) && SortedBy(b, lessOrEqual) && multiset(a) == multiset(b)
    requires forall x, y :: x in a && y in a && lessOrEqual(x, y) && lessOrEqual(y, x) ==> x == y
    ensures a == b
  {
    SameElements(a, b);
    if a != [] {
      assert b[0] in b && a[0] in a && b[0] in a && a[0] in b;
      var i :| 0 <= i < |a| && a[i] == b[0];
      var j :| 0 <= j < |b| && b[j] == a[0];
      assert a[0] == b[0] by {
        assert i > 0 ==> lessOrEqual(a[0], a[i]);
        assert j > 0 ==> lessOrEqual(b[0], b[j]);
      }
      TailElements(a);
      TailElements(b);
      SortedArrangementsAgree(a[1..], b[1..], lessOrEqual);
    }
  }

  lemma TailElements<T(!new)>(s: seq<T>)
    requires s != []
    ensures multiset(s[1..]) == multiset(s) - multiset{s[0]}
  {
    assert s == [s[0]] + s[1..];
  }

  lemma WithoutOne<T(!new)>(a: seq<T>, front: seq<T>, back: seq<T>)
    requires a != [] && multiset(a) == multiset(front + ([a[0]] + back))
    ensures multiset(a[1..]) == multiset(front + back)
  {
    TailElements(a);
  }

  /** Hence sorting forgets the input order. */
  lemma SortForgetsOrder<T(!new)>(a: seq<T>, b: seq<T>, compare: (T, T) -> int)
    requires Comparator(compare) && multiset(a) == multiset(b)
    requires forall x, y :: x in a && y in a && compare(x, y) <= 0 && compare(y, x) <= 0 ==> x == y
    ensures Sort(a, compare) == Sort(b, compare)
  {
    SortKeepsElements(a, compare);
    SortKeepsElements(b, compare);
    SortIsSorted(a, compare);
    SortIsSorted(b, compare);
    SameElements(Sort(a, compare), a);
    SortedArrangementsAgree(Sort(a, compare), Sort(b, compare), (x, y) => compare(x, y) <= 0);
  }

  ghost predicate Before<T(!new)>(s: seq<T>, x: T, y: T) {
    exists p, q :: 0 <= p < q < |s| && s[p] == x && s[q] == y
  }

  lemma BeforeInFront<T(!new)>(first: T, rest: seq<T>, x: T, y: T)
    ensures Before([first] + rest, x, y) <==> (first == x && y in rest) || Before(rest, x, y)
  {
    var s := [first] + rest;
    if first == x && y in rest {
      var q :| 0 <= q < |rest| && rest[q] == y;
      assert s[0] == x && s[q + 1] == y;
    }
    if p, q :| 0 <= p < q < |rest| && rest[p] == x && rest[q] == y {
      assert s[p + 1] == x && s[q + 1] == y;
    }
    if p, q :| 0 <= p < q < |s| && s[p] == x && s[q] == y {
      assert rest[q - 1] == y;
      assert p > 0 ==> rest[p - 1] == x;
    }
  }

  lemma {:induction false} InsertKeepsBefore<T(!new)>(z: T, s: seq<T>, compare: (T, T) -> int, x: T, y: T)
    requires Before(s, x, y)
    ensures Before(Insert(z, s, compare), x, y)
    decreases |s|
  {
    hide Before;
    if s == [] || compare(z, s[0]) <= 0 {
      BeforeInFront(z, s, x, y);
    } else {
      var rest := s[1..];
      assert s == [s[0]] + rest;
      BeforeInFront(s[0], rest, x, y);
      BeforeInFront(s[0], Insert(z, rest, compare), x, y);
      if Before(rest, x, y) {
        InsertKeepsBefore(z, rest, compare, x, y);
      } else {
        InsertKeepsElements(z, rest, compare);
        SameElements(Insert(z, rest, compare), rest + [z]);
        assert y in rest + [z];
      }
    }
  }

  lemma {:induction false} InsertPutsBefore<T(!new)>(x: T, s: seq<T>, compare: (T, T) -> int, y: T)
    requires y in s && compare(x, y) <= 0
    ensures Before(Insert(x, s, compare), x, y)
  {
    hide Before;
    if compare(x, s[0]) <= 0 {
      BeforeInFront(x, s, x, y);
    } else {
      var q :| 0 <= q < |s| && s[q] == y;
      assert s[1..][q - 1] == y;
      InsertPutsBefore(x, s[1..], compare, y);
      BeforeInFront(s[0], Insert(x, s[1..], compare), x, y);
    }
  }

  /** Stability: what stood before and is not greater stays before. */
  lemma {:induction false} SortIsStable<T(!new)>(s: seq<T>, compare: (T, T) -> int, i: nat, j: nat)
    requires i < j < |s| && compare(s[i], s[j]) <= 0
    ensures Before(Sort(s, compare), s[i], s[j])
  {
    if i > 0 {
      SortIsStable(s[1..], compare, i - 1, j - 1);
      InsertKeepsBefore(s[0], Sort(s[1..], compare), compare, s[i], s[j]);
    } else {
      SortKeepsElements(s[1..], compare);
      SameElements(Sort(s[1..], compare), s[1..]);
      assert s[1..][j - 1] == s[j];
      InsertPutsBefore(s[0], Sort(s[1..], compare), compare, s[j]);
    }
  }

  lemma {:induction false} FilterKeepsBefore<T(!new)>(s: seq<T>, keep: T -> bool, x: T, y: T)
    requires Before(s, x, y) && keep(x) && keep(y)
    ensures Before(Filter(s, keep), x, y)
    decreases |s|
  {
    hide Before;
    if s == [] {
      assert Before(s, x, y);
      NothingBefore(x, y);
    } else {
      var rest := s[1..];
      assert s == [s[0]] + rest;
      BeforeInFront(s[0], rest, x, y);
      BeforeInFront(s[0], Filter(rest, keep), x, y);
      assert Filter(s, keep) == if keep(s[0]) then [s[0]] + Filter(rest, keep) else Filter(rest, keep);
      if Before(rest, x, y) {
        FilterKeepsBefore(rest, keep, x, y);
      }
    }
  }

  lemma NothingBefore<T(!new)>(x: T, y: T)
    ensures !Before([], x, y)
  {
  }

  lemma BeforeInLonger<T(!new)>(a: seq<T>, b: seq<T>, x: T, y: T)
    ensures Before(a, x, y) || Before(b, x, y) ==> Before(a + b, x, y)
  {
    if p, q :| 0 <= p < q < |a| && a[p] == x && a[q] == y {
      assert (a + b)[p] == x && (a + b)[q] == y;
    }
    if p, q :| 0 <= p < q < |b| && b[p] == x && b[q] == y {
      assert (a + b)[|a| + p] == x && (a + b)[|a| + q] == y;
    }
  }

  /** Among distinct elements exactly one of two stands before the other. */
  lemma DistinctAreOrdered<T(!new)>(s: seq<T>, x: T, y: T)
    requires Distinct(s) && x in s && y in s && x != y
    ensures Before(s, x, y) <==> !Before(s, y, x)
  {
    var i :| 0 <= i < |s| && s[i] == x;
    var j :| 0 <= j < |s| && s[j] == y;
    if i < j {
      assert Before(s, x, y);
    } else {
      assert Before(s, y, x);
    }
  }

  lemma {:induction false} PermutationKeepsDistinct<T(!new)>(s: seq<T>, t: seq<T>)
    requires Distinct(s) && multiset(t) == multiset(s)
    ensures Distinct(t)
  {
    forall i, j | 0 <= i < j < |t| ensures t[i] != t[j] {
      SameElements(t, s);
      assert t[i] in s;
      OnlyOnce(s, t[i]);
      assert t == t[..j] + t[j..];
      assert multiset(t) == multiset(t[..j]) + multiset(t[j..]);
      assert t[..j][i] in t[..j] && t[j..][0] in t[j..];
    }
  }

  lemma {:induction false} OnlyOnce<T(!new)>(s: seq<T>, x: T)
    requires Distinct(s)
    ensures multiset(s)[x] <= 1
  {
    if s != [] {
      assert s == [s[0]] + s[1..];
      OnlyOnce(s[1..], x);
      forall i | 0 <= i < |s[1..]| ensures s[1..][i] != s[0] {
        assert s[i + 1] == s[1..][i];
      }
    }
  }

  /** Of the elements moved so far, tied ones keep the order they had. */
  ghost predicate Stable<T(!new)>(s: seq<T>, out: seq<T>, compare: (T, T) -> int) {
    forall x, y :: Before(s, x, y) && x in out && y in out && compare(x, y) <= 0 && compare(y, x) <= 0 ==>
        Before(out, x, y)
  }

  ghost function AtMostOrTied<T(!new)>(s: seq<T>, compare: (T, T) -> int): (T, T) -> bool {
    (x: T, y: T) => compare(x, y) <= 0 && (compare(y, x) <= 0 ==> x == y || Before(s, x, y))
  }

  lemma StableIsSortedWithTies<T(!new)>(s: seq<T>, out: seq<T>, compare: (T, T) -> int)
    requires Distinct(s) && multiset(out) == multiset(s) && Stable(s, out, compare)
    requires SortedBy(out, (a, b) => compare(a, b) <= 0)
    ensures SortedBy(out, AtMostOrTied(s, compare))
  {
    PermutationKeepsDistinct(s, out);
    SameElements(out, s);
    forall i, j | 0 <= i < j < |out| ensures AtMostOrTied(s, compare)(out[i], out[j]) {
      var x, y := out[i], out[j];
      assert x in out && y in out && Before(out, x, y);
      DistinctAreOrdered(s, x, y);
      DistinctAreOrdered(out, x, y);
    }
  }

  /** A sorted permutation of distinct elements that keeps the order of tied ones is what the stable sort returns. */
  lemma StableSortIsUnique<T(!new)>(s: seq<T>, out: seq<T>, compare: (T, T) -> int)
    requires Comparator(compare) && Distinct(s) && multiset(out) == multiset(s) && Stable(s, out, compare)
    requires SortedBy(out, (a, b) => compare(a, b) <= 0)
    ensures out == Sort(s, compare)
  {
    var sorted := Sort(s, compare);
    SortKeepsElements(s, compare);
    SortIsSorted(s, compare);
    assert Stable(s, sorted, compare) by {
      SortingIsStable(s, compare);
    }
    StableIsSortedWithTies(s, out, compare);
    StableIsSortedWithTies(s, sorted, compare);
    SameElements(out, s);
    forall x, y | x in out && y in out && AtMostOrTied(s, compare)(x, y) && AtMostOrTied(s, compare)(y, x)
      ensures x == y
    {
      if x != y {
        DistinctAreOrdered(s, x, y);
      }
    }
    hide Stable, SortedBy, AtMostOrTied, Sort;
    SortedArrangementsAgree(out, sorted, AtMostOrTied(s, compare));
  }

  lemma SortingIsStable<T(!new)>(s: seq<T>, compare: (T, T) -> int)
    ensures Stable(s, Sort(s, compare), compare)
  {
    forall x, y | Before(s, x, y) && compare(x, y) <= 0 ensures Before(Sort(s, compare), x, y) {
      var i: nat, j: nat :| i < j < |s| && s[i] == x && s[j] == y;
      SortIsStable(s, compare, i, j);
    }
  }
}

/**
 Splicing replacements into a document (the end of `rewriteMarkdown` in
 docker/support/scripts/project-doc-site.ts).

 The code applies the replacements one after the other, back to front, each to the text left by
 the one before.  The reference is the simultaneous splice: the gaps of the source and the
 replacement values, read from left to right.
 */
module ReplacementSplice {
  import opened Sequences
  import opened Numbers

  datatype Replacement = Replacement(start: nat, end: nat, value: string)

  /** One replacement; positions past the end of the text are clamped, as `slice` does. */
  function Apply(text: string, r: Replacement): string {
    text[..Min(r.start, |text|)] + r.value + text[Min(r.end, |text|)..]
  }

  /** The replacements of the list, one after the other. */
  function ApplyEach(text: string, list: seq<Replacement>): string {
    if list == [] then text
    else Apply(ApplyEach(text, list[..|list| - 1]), list[|list| - 1])
  }

  /** The comparator of the sort. */
  function Descending(a: Replacement, b: Replacement): int {
    b.start - a.start
  }

  function Rewritten(source: string, replacements: seq<Replacement>): string {
    ApplyEach(source, Sort(replacements, Descending))
  }

  method ApplyReplacements(source: string, replacements: seq<Replacement>) returns (projected: string)
    ensures projected == Rewritten(source, replacements)
  {
    projected := source;
    var sorted := Sort(replacements, Descending);
    for k := 0 to |sorted|
      invariant projected == ApplyEach(source, sorted[..k])
    {
      assert sorted[..k + 1][..k] == sorted[..k];
      projected := projected[..Min(sorted[k].start, |projected|)] + sorted[k].value
          + projected[Min(sorted[k].end, |projected|)..];
    }
    assert sorted[..|sorted|] == sorted;
  }

  // ---------------------------------------------------------------- the simultaneous splice

  /** The ranges follow one another between two positions. */
  predicate Ascending(list: seq<Replacement>, from: nat, limit: nat) {
    if list == [] then from <= limit
    else from <= list[0].start <= list[0].end && Ascending(list[1..], list[0].end, limit)
  }

  lemma {:induction false} AscendingEnds(list: seq<Replacement>, from: nat, limit: nat)
    requires Ascending(list, from, limit)
    ensures from <= limit
  {
    if list != [] {
      AscendingEnds(list[1..], list[0].end, limit);
    }
  }

  /** Gaps and values from left to right. */
  function Weave(source: string, from: nat, list: seq<Replacement>): string
    requires Ascending(list, from, |source|)
    decreases |list|
  {
    if list == [] then source[from..]
    else
      AscendingEnds(list[1..], list[0].end, |source|);
      source[from..list[0].start] + list[0].value + Weave(source, list[0].end, list[1..])
  }

  /** The list is an arrangement of the replacements in which they follow one another. */
  ghost predicate Arrangement(replacements: seq<Replacement>, list: seq<Replacement>, limit: nat) {
    multiset(list) == multiset(replacements) && Ascending(list, 0, limit)
  }

  ghost predicate SpliceVia(source: string, replacements: seq<Replacement>, list: seq<Replacement>, r: string) {
    Arrangement(replacements, list, |source|) && r == Weave(source, 0, list)
  }

  /** A text is a simultaneous splice when it weaves some such arrangement. */
  ghost predicate IsSplice(source: string, replacements: seq<Replacement>, r: string) {
    exists list :: SpliceVia(source, replacements, list, r)
  }

  // ---------------------------------------------------------------- when back to front is simultaneous

  predicate Apart(a: Replacement, b: Replacement) {
    a.end <= b.start || b.end <= a.start
  }

  ghost predicate Disjoint(replacements: seq<Replacement>) {
    && (forall r :: r in replacements ==> r.start <= r.end)
    && (forall i, j :: 0 <= i < j < |replacements| ==> Apart(replacements[i], replacements[j]))
  }

  ghost predicate Within(replacements: seq<Replacement>, limit: nat) {
    forall r :: r in replacements ==> r.end <= limit
  }

  /** Of two replacements that start at the same place, the later one replaces nothing. */
  ghost predicate SafeTies(replacements: seq<Replacement>) {
    forall i, j :: 0 <= i < j < |replacements| && replacements[i].start == replacements[j].start ==>
      replacements[j].end == replacements[j].start
  }

  /** Each range ends before the ones earlier in the list. */
  ghost predicate Descends(list: seq<Replacement>) {
    && (forall r :: r in list ==> r.start <= r.end)
    && (forall i, j :: 0 <= i < j < |list| ==> list[j].end <= list[i].start)
  }

  lemma DescendsInFront(first: Replacement, rest: seq<Replacement>)
    requires Descends(rest) && first.start <= first.end && forall r :: r in rest ==> r.end <= first.start
    ensures Descends([first] + rest)
  {
    var list := [first] + rest;
    forall i, j | 0 <= i < j < |list| ensures list[j].end <= list[i].start {
      assert list[j] == rest[j - 1] && rest[j - 1] in rest;
      assert i > 0 ==> list[i] == rest[i - 1];
    }
  }

  lemma {:induction false} InsertDescends(x: Replacement, s: seq<Replacement>)
    requires x.start <= x.end && Descends(s)
    requires forall r :: r in s ==> Apart(x, r) && (x.start == r.start ==> r.end == r.start)
    ensures Descends(Insert(x, s, Descending))
  {
    if s == [] {
    } else {
      assert s[0] in s;
      hide Descends;
      if Descending(x, s[0]) <= 0 {
        assert forall r :: r in s ==> r == s[0] || r in s[1..];
        DescendsInFront(x, s);
      } else {
        InsertDescends(x, s[1..]);
        InsertKeepsElements(x, s[1..], Descending);
        SameElements(Insert(x, s[1..], Descending), s[1..] + [x]);
        DescendsInFront(s[0], Insert(x, s[1..], Descending));
      }
    }
  }

  lemma {:induction false} SortDescends(replacements: seq<Replacement>)
    requires Disjoint(replacements) && SafeTies(replacements)
    ensures Descends(Sort(replacements, Descending))
  {
    if replacements != [] {
      var x, rest := replacements[0], replacements[1..];
      assert x in replacements;
      SortDescends(rest);
      SortKeepsElements(rest, Descending);
      SameElements(Sort(rest, Descending), rest);
      forall r | r in rest ensures Apart(x, r) && (x.start == r.start ==> r.end == r.start) {
        var k :| 0 <= k < |rest| && rest[k] == r;
        assert replacements[k + 1] == r;
      }
      InsertDescends(x, Sort(rest, Descending));
    }
  }

  function Reverse(s: seq<Replacement>): seq<Replacement> {
    if s == [] then [] else [s[|s| - 1]] + Reverse(s[..|s| - 1])
  }

  lemma {:induction false} ReverseKeepsElements(s: seq<Replacement>)
    ensures multiset(Reverse(s)) == multiset(s)
  {
    if s != [] {
      ReverseKeepsElements(s[..|s| - 1]);
      assert s == s[..|s| - 1] + [s[|s| - 1]];
    }
  }

  lemma {:induction false} BackToFrontWeaves(source: string, list: seq<Replacement>, m: nat)
    requires Descends(list) && Within(list, |source|) && m <= |source|
    requires forall r :: r in list ==> m <= r.start
    ensures Ascending(Reverse(list), m, |source|)
    ensures ApplyEach(source, list) == source[..m] + Weave(source, m, Reverse(list))
    decreases |list|
  {
    if list == [] {
      assert source == source[..m] + source[m..];
    } else {
      var last := |list| - 1;
      var before, r := list[..last], list[last];
      DescendsInTheEnd(list);
      assert r in list && Within(before, |source|);
      BackToFrontWeaves(source, before, r.end);
      var tail := Weave(source, r.end, Reverse(before));
      AppliedOnce(source, r, m, tail);
      assert Reverse(list) == [r] + Reverse(before) && Reverse(list)[1..] == Reverse(before);
      hide Descends, Within, Reverse;
    }
  }

  lemma DescendsInTheEnd(list: seq<Replacement>)
    requires list != [] && Descends(list)
    ensures var before, r := list[..|list| - 1], list[|list| - 1];
            Descends(before) && r.start <= r.end && forall x :: x in before ==> x in list && r.end <= x.start
  {
    var before, r := list[..|list| - 1], list[|list| - 1];
    assert r in list;
    forall x | x in before ensures r.end <= x.start && x in list {
      var k :| 0 <= k < |before| && before[k] == x;
      assert list[k] == x;
    }
  }

  lemma AppliedOnce(source: string, r: Replacement, m: nat, tail: string)
    requires m <= r.start <= r.end <= |source|
    ensures Apply(source[..r.end] + tail, r) == source[..m] + (source[m..r.start] + r.value + tail)
  {
    var text := source[..r.end] + tail;
    assert text[..r.start] == source[..r.start] && text[r.end..] == tail;
    assert source[..r.start] == source[..m] + source[m..r.start];
  }

  lemma SafeTiesSplice(source: string, replacements: seq<Replacement>)
    requires Disjoint(replacements) && SafeTies(replacements) && Within(replacements, |source|)
    ensures IsSplice(source, replacements, Rewritten(source, replacements))
  {
    var sorted := Sort(replacements, Descending);
    SortDescends(replacements);
    SortKeepsElements(replacements, Descending);
    SameElements(sorted, replacements);
    BackToFrontWeaves(source, sorted, 0);
    ReverseKeepsElements(sorted);
    assert source[..0] + Weave(source, 0, Reverse(sorted)) == Weave(source, 0, Reverse(sorted));
    assert SpliceVia(source, replacements, Reverse(sorted), Rewritten(source, replacements));
  }

  /** The same ranges in the same order, with any values. */
  ghost predicate SameRanges(a: seq<Replacement>, b: seq<Replacement>) {
    |a| == |b| && forall k :: 0 <= k < |a| ==> a[k].start == b[k].start && a[k].end == b[k].end
  }

  /** Whatever the source and the values, the code produces a simultaneous splice. */
  ghost predicate Faithful(replacements: seq<Replacement>) {
    forall source, chosen :: SameRanges(replacements, chosen) && Within(chosen, |source|) ==>
      IsSplice(source, chosen, Rewritten(source, chosen))
  }

  /** The exact condition: disjoint ranges are spliced faithfully if and only if ties are safe. */
  lemma FaithfulIffSafeTies(replacements: seq<Replacement>)
    requires Disjoint(replacements)
    ensures Faithful(replacements) <==> SafeTies(replacements)
  {
    if SafeTies(replacements) {
      forall source, chosen | SameRanges(replacements, chosen) && Within(chosen, |source|)
        ensures IsSplice(source, chosen, Rewritten(source, chosen))
      {
        SameRangesSameShape(replacements, chosen);
        SafeTiesSplice(source, chosen);
      }
    } else {
      UnsafeTiesLoseText(replacements);
    }
  }

  lemma SameRangesSameShape(a: seq<Replacement>, b: seq<Replacement>)
    requires SameRanges(a, b) && Disjoint(a)
    ensures Disjoint(b) && (SafeTies(a) <==> SafeTies(b))
  {
    forall r | r in b ensures r.start <= r.end {
      var k :| 0 <= k < |b| && b[k] == r;
      assert a[k] in a;
    }
    forall i, j | 0 <= i < j < |b| ensures Apart(b[i], b[j]) {
      assert Apart(a[i], a[j]);
    }
  }

  // ---------------------------------------------------------------- the failing family

  const MARK := 'X'

  function Marked(replacements: seq<Replacement>, i: nat): (r: seq<Replacement>)
    requires i < |replacements|
    ensures |r| == |replacements|
    ensures forall k :: 0 <= k < |r| ==> r[k] == replacements[k].(value := if k == i then [MARK] else "")
  {
    seq(|replacements|, k requires 0 <= k < |replacements| => replacements[k].(value := if k == i then [MARK] else ""))
  }

  function Longest(replacements: seq<Replacement>): (n: nat)
    ensures forall r :: r in replacements ==> r.end <= n
  {
    if replacements == [] then 0
    else
      var n := Longest(replacements[1..]);
      if replacements[0].end <= n then n else replacements[0].end
  }

  lemma {:induction false} WeaveShowsValues(source: string, from: nat, list: seq<Replacement>, r: Replacement, c: char)
    requires Ascending(list, from, |source|) && r in list && c in r.value
    ensures c in Weave(source, from, list)
    decreases |list|
  {
    if r != list[0] {
      WeaveShowsValues(source, list[0].end, list[1..], r, c);
    }
  }

  lemma TwiceCounts(s: seq<Replacement>, p: nat, k: nat)
    requires p < k < |s| && s[p] == s[k]
    ensures multiset(s)[s[p]] >= 2
  {
    assert s == s[..k] + [s[k]] + s[k + 1..];
    assert s[p] == s[..k][p] && s[p] in multiset(s[..k]);
  }

  lemma OnceCounts(s: seq<Replacement>, i: nat)
    requires i < |s| && forall k :: 0 <= k < |s| && k != i ==> s[k] != s[i]
    ensures multiset(s)[s[i]] == 1
  {
    assert s == s[..i] + [s[i]] + s[i + 1..];
    assert s[i] !in s[..i] && s[i] !in s[i + 1..];
  }

  /** The mark stands at one position only. */
  ghost predicate HeldAt(text: string, a: nat) {
    a < |text| && text[a] == MARK && forall k :: 0 <= k < |text| && k != a ==> text[k] != MARK
  }

  lemma {:induction false} EarlierKeepQuiet(source: string, list: seq<Replacement>, a: nat)
    requires MARK !in source && a <= |source|
    requires forall r :: r in list ==> r.value == "" && a <= r.start
    ensures MARK !in ApplyEach(source, list) && a <= |ApplyEach(source, list)|
    decreases |list|
  {
    if list != [] {
      var before := list[..|list| - 1];
      assert list[|list| - 1] in list && forall r :: r in before ==> r in list;
      EarlierKeepQuiet(source, before, a);
    }
  }

  lemma MarkSwallowed(text: string, r: Replacement)
    requires HeldAt(text, r.start) && r.start < r.end && r.value == ""
    ensures MARK !in Apply(text, r)
  {
  }

  /** An insertion at p, nothing but insertions at its place up to q, and there a replacement that removes text. */
  ghost predicate Tie(s: seq<Replacement>, p: nat, q: nat) {
    && p < q < |s|
    && (forall j :: 0 <= j < p ==> s[p].start <= s[j].start)
    && (forall j :: p <= j <= q ==> s[j].start == s[p].start && (s[j].end == s[p].start <==> j < q))
    && s[q].start < s[q].end
  }

  ghost predicate OnlyMark(s: seq<Replacement>, p: nat) {
    p < |s| && s[p].value == [MARK] && forall j :: 0 <= j < |s| && j != p ==> s[j].value == ""
  }

  /** After the insertion the mark stays until the replacement; then it is gone for good. */
  lemma {:induction false} MarkIsLost(source: string, s: seq<Replacement>, p: nat, q: nat, k: nat)
    requires Tie(s, p, q) && OnlyMark(s, p) && s[p].start <= |source| && MARK !in source
    requires p < k <= |s|
    ensures k <= q ==> HeldAt(ApplyEach(source, s[..k]), s[p].start)
    ensures k > q ==> MARK !in ApplyEach(source, s[..k])
    decreases k
  {
    assert s[..k][..k - 1] == s[..k - 1];
    var before := ApplyEach(source, s[..k - 1]);
    assert ApplyEach(source, s[..k]) == Apply(before, s[k - 1]);
    hide ApplyEach;
    if k == p + 1 {
      hide Apply, HeldAt;
      EarlierKeepQuiet(source, s[..p], s[p].start);
      assert s[p].end == s[p].start;
    } else {
      MarkIsLost(source, s, p, q, k - 1);
      LaterStep(before, s[k - 1], s[p].start, k <= q, k == q + 1);
    }
  }

  lemma LaterStep(text: string, r: Replacement, a: nat, between: bool, swallows: bool)
    requires r.value == "" && !(between && swallows)
    requires between ==> HeldAt(text, a) && r.start == r.end == a
    requires swallows ==> HeldAt(text, a) && r.start == a < r.end
    requires !between && !swallows ==> MARK !in text
    ensures if between then HeldAt(Apply(text, r), a) else MARK !in Apply(text, r)
  {
    if between {
      assert Apply(text, r) == text;
    } else if swallows {
      MarkSwallowed(text, r);
    }
  }

  /** In the sorted list, what lies between an insertion and a later replacement at its place is inserted there too. */
  lemma SortedTie(s: seq<Replacement>, p: nat, q: nat)
    requires p < q < |s| && SortedBy(s, (x, y) => Descending(x, y) <= 0)
    requires s[p].start == s[p].end == s[q].start < s[q].end
    requires forall j :: p < j < q ==> s[j] != s[q]
    requires ApartValues(s)
    ensures Tie(s, p, q)
  {
    forall j | 0 <= j < p ensures s[p].start <= s[j].start {
      assert Descending(s[j], s[p]) <= 0;
    }
    forall j | p < j < q ensures s[j].start == s[p].start && s[j].end == s[p].start {
      assert Descending(s[p], s[j]) <= 0 && Descending(s[j], s[q]) <= 0;
      assert s[j] in s && s[q] in s && Apart(s[j], s[q]);
    }
  }

  ghost predicate ApartValues(s: seq<Replacement>) {
    && (forall x, y :: x in s && y in s && x != y ==> Apart(x, y))
    && (forall x :: x in s ==> x.start <= x.end)
  }

  lemma DisjointValues(chosen: seq<Replacement>, s: seq<Replacement>)
    requires Disjoint(chosen) && forall x :: x in s <==> x in chosen
    ensures ApartValues(s)
  {
    forall x, y | x in s && y in s && x != y ensures Apart(x, y) {
      var m :| 0 <= m < |chosen| && chosen[m] == x;
      var n :| 0 <= n < |chosen| && chosen[n] == y;
      assert m < n ==> Apart(chosen[m], chosen[n]);
      assert n < m ==> Apart(chosen[n], chosen[m]);
    }
  }

  lemma MarkMoves(chosen: seq<Replacement>, i: nat, s: seq<Replacement>, p: nat)
    requires OnlyMark(chosen, i) && multiset(s) == multiset(chosen) && p < |s| && s[p] == chosen[i]
    ensures OnlyMark(s, p)
  {
    SameElements(s, chosen);
    OnceCounts(chosen, i);
    forall k | 0 <= k < |s| && k != p ensures s[k].value == "" {
      assert s[k] in s;
      if s[k] == s[p] {
        if k < p {
          TwiceCounts(s, k, p);
        } else {
          TwiceCounts(s, p, k);
        }
      }
    }
  }

  lemma {:induction false} FirstAfter(s: seq<Replacement>, p: nat, q: nat) returns (first: nat)
    requires p < q < |s|
    ensures p < first <= q && s[first] == s[q] && forall j :: p < j < first ==> s[j] != s[q]
  {
    first := p + 1;
    while s[first] != s[q]
      invariant p < first <= q && forall j :: p < j < first ==> s[j] != s[q]
      decreases q - first
    {
      first := first + 1;
    }
  }

  lemma SortedForTie(chosen: seq<Replacement>, i: nat, j: nat) returns (s: seq<Replacement>, p: nat, q: nat)
    requires Disjoint(chosen) && OnlyMark(chosen, i)
    requires i < j < |chosen| && chosen[i].start == chosen[i].end == chosen[j].start < chosen[j].end
    ensures s == Sort(chosen, Descending) && Tie(s, p, q) && OnlyMark(s, p) && s[p] == chosen[i]
  {
    s := Sort(chosen, Descending);
    assert Before(s, chosen[i], chosen[j]) by {
      SortIsStable(chosen, Descending, i, j);
    }
    var p', q' :| 0 <= p' < q' < |s| && s[p'] == chosen[i] && s[q'] == chosen[j];
    p := p';
    q := FirstAfter(s, p, q');
    hide Sort, Tie;
    SortIsSorted(chosen, Descending);
    SortKeepsElements(chosen, Descending);
    SameElements(s, chosen);
    hide Disjoint, OnlyMark, SortedBy, ApartValues;
    MarkMoves(chosen, i, s, p);
    DisjointValues(chosen, s);
    SortedTie(s, p, q);
  }

  lemma TieLosesMark(source: string, chosen: seq<Replacement>, i: nat, j: nat)
    requires Disjoint(chosen) && OnlyMark(chosen, i) && MARK !in source
    requires i < j < |chosen| && chosen[i].start == chosen[i].end == chosen[j].start < chosen[j].end
    requires chosen[i].start <= |source|
    ensures MARK !in Rewritten(source, chosen)
  {
    hide Disjoint, OnlyMark, ApplyEach, Sort;
    var s, p, q := SortedForTie(chosen, i, j);
    assert |s| > q by {
      assert Tie(s, p, q);
    }
    hide Tie;
    MarkIsLost(source, s, p, q, |s|);
    assert s[..|s|] == s;
  }

  lemma SpliceShowsMark(source: string, chosen: seq<Replacement>, i: nat, r: string)
    requires i < |chosen| && chosen[i].value == [MARK] && IsSplice(source, chosen, r)
    ensures MARK in r
  {
    var list :| SpliceVia(source, chosen, list, r);
    SameElements(list, chosen);
    assert chosen[i] in chosen;
    WeaveShowsValues(source, 0, list, chosen[i], MARK);
  }

  /** An insertion listed before a replacement that starts where it stands is lost. */
  lemma UnsafeTiesLoseText(replacements: seq<Replacement>)
    requires Disjoint(replacements) && !SafeTies(replacements)
    ensures !Faithful(replacements)
  {
    var i: nat, j: nat :| i < j < |replacements| && replacements[i].start == replacements[j].start
                          && replacements[j].end != replacements[j].start;
    assert replacements[i] in replacements && replacements[j] in replacements &&
        Apart(replacements[i], replacements[j]);
    UnsafePairLosesText(replacements, i, j);
  }

  lemma MarkedShape(replacements: seq<Replacement>, i: nat)
    requires i < |replacements|
    ensures SameRanges(replacements, Marked(replacements, i)) && OnlyMark(Marked(replacements, i), i)
  {
  }

  lemma WithinLongest(replacements: seq<Replacement>, chosen: seq<Replacement>)
    requires SameRanges(replacements, chosen)
    ensures Within(chosen, Longest(replacements))
  {
    forall r | r in chosen ensures r.end <= Longest(replacements) {
      var k :| 0 <= k < |chosen| && chosen[k] == r;
      assert replacements[k] in replacements;
    }
  }

  lemma MarkedFits(replacements: seq<Replacement>, i: nat) returns (source: string, chosen: seq<Replacement>)
    requires Disjoint(replacements) && i < |replacements|
    ensures chosen == Marked(replacements, i) && SameRanges(replacements, chosen) && Disjoint(chosen) &&
        OnlyMark(chosen, i)
    ensures MARK !in source && Within(chosen, |source|)
  {
    hide Disjoint, SafeTies, SameRanges, OnlyMark, Within;
    chosen := Marked(replacements, i);
    source := seq(Longest(replacements), _ => 'a');
    MarkedShape(replacements, i);
    SameRangesSameShape(replacements, chosen);
    WithinLongest(replacements, chosen);
  }

  lemma UnsafePairLosesText(replacements: seq<Replacement>, i: nat, j: nat)
    requires Disjoint(replacements) && i < j < |replacements|
    requires replacements[i].start == replacements[i].end == replacements[j].start < replacements[j].end
    ensures !Faithful(replacements)
  {
    var source, chosen := MarkedFits(replacements, i);
    assert chosen[i] in chosen && chosen[i].start <= |source|;
    hide Disjoint, OnlyMark, IsSplice, Rewritten, SameRanges, Within;
    TieLosesMark(source, chosen, i, j);
    if IsSplice(source, chosen, Rewritten(source, chosen)) {
      SpliceShowsMark(source, chosen, i, Rewritten(source, chosen));
    }
  }

  /** One such input: the insertion X before d and the replacement Y of "de" leave "abcYe" instead of "abcXY". */
  lemma InsertionIsOverwritten()
    ensures var insertion, replacement := Replacement(3, 3, "X"), Replacement(3, 5, "Y");
            && Disjoint([insertion, replacement])
            && Rewritten("abcde", [insertion, replacement]) == "abcYe"
            && Weave("abcde", 0, [insertion, replacement]) == "abcXY"
  {
    var x, y := Replacement(3, 3, "X"), Replacement(3, 5, "Y");
    assert Sort([x, y], Descending) == [x, y] by {
      assert [x, y][1..] == [y] && [y][1..] == [];
      assert Sort([y], Descending) == Insert(y, [], Descending);
    }
    assert [x, y][..1] == [x] && [x][..0] == [];
    assert ApplyEach("abcde", [x]) == Apply("abcde", x) == "abcXde";
    assert Apply("abcXde", y) == "abcYe";
    assert [x, y][1..] == [y];
    assert Weave("abcde", 5, []) == "";
    assert Weave("abcde", 3, [y]) == "Y";
  }

  // ---------------------------------------------------------------- distinct starts

  ghost predicate DistinctStarts(replacements: seq<Replacement>) {
    forall i, j :: 0 <= i < j < |replacements| ==> replacements[i].start != replacements[j].start
  }

  lemma SameStartSameReplacement(replacements: seq<Replacement>)
    requires DistinctStarts(replacements)
    ensures forall x, y :: x in replacements && y in replacements && x.start == y.start ==> x == y
  {
  }

  predicate StartsBefore(a: Replacement, b: Replacement) {
    a.start <= b.start
  }

  lemma {:induction false} AscendingStarts(list: seq<Replacement>, from: nat, limit: nat)
    requires Ascending(list, from, limit)
    ensures forall r :: r in list ==> from <= r.start
    ensures SortedBy(list, StartsBefore)
    decreases |list|
  {
    if list != [] {
      AscendingStarts(list[1..], list[0].end, limit);
      forall j | 0 < j < |list| ensures list[0].start <= list[j].start {
        assert list[j] == list[1..][j - 1] && list[j] in list[1..];
      }
    }
  }

  /** There is one simultaneous splice, so it is the one the code produces, in whatever order the replacements come. */
  lemma RewrittenIsTheSplice(source: string, replacements: seq<Replacement>, shuffled: seq<Replacement>, r: string)
    requires Disjoint(replacements) && DistinctStarts(replacements) && Within(replacements, |source|)
    requires multiset(shuffled) == multiset(replacements)
    ensures IsSplice(source, replacements, r) <==> r == Rewritten(source, shuffled)
  {
    SameStartSameReplacement(replacements);
    SameElements(shuffled, replacements);
    SortForgetsOrder(shuffled, replacements, Descending);
    SafeTiesSplice(source, replacements);
    var other :| SpliceVia(source, replacements, other, Rewritten(source, replacements));
    if list :| SpliceVia(source, replacements, list, r) {
      AscendingStarts(list, 0, |source|);
      AscendingStarts(other, 0, |source|);
      SameElements(list, replacements);
      SortedArrangementsAgree(list, other, StartsBefore);
    }
  }

  // ---------------------------------------------------------------- where the text goes

  /** By how much a position moves: what every range ending at or before it has added or removed. */
  function Shift(list: seq<Replacement>, p: int): int {
    if list == [] then 0
    else (if list[0].end <= p then |list[0].value| - (list[0].end - list[0].start) else 0) + Shift(list[1..], p)
  }

  lemma {:induction false} NothingEndsBefore(list: seq<Replacement>, from: nat, limit: nat, p: int)
    requires Ascending(list, from, limit) && forall r :: r in list ==> p < r.end
    ensures Shift(list, p) == 0
    decreases |list|
  {
    if list != [] {
      NothingEndsBefore(list[1..], list[0].end, limit, p);
    }
  }

  ghost predicate Untouched(list: seq<Replacement>, p: int) {
    forall r :: r in list ==> p < r.start || r.end <= p
  }

  ghost predicate KeptAt(r: string, at: int, c: char) {
    0 <= at < |r| && r[at] == c
  }

  /** In a first gap nothing has moved yet. */
  lemma FirstGap(source: string, from: nat, list: seq<Replacement>, p: nat)
    requires list != [] && Ascending(list, from, |source|) && from <= p < list[0].start
    ensures Shift(list, p) == 0 && p < |source| && KeptAt(Weave(source, from, list), p - from, source[p])
  {
    var first, rest := list[0], list[1..];
    AscendingEnds(rest, first.end, |source|);
    forall r | r in list ensures p < r.end {
      AscendingMember(list, from, |source|, r);
      FirstStartsFirst(list, from, |source|, r);
    }
    NothingEndsBefore(list, from, |source|, p);
    assert source[from..first.start][p - from] == source[p];
  }

  lemma FirstStartsFirst(list: seq<Replacement>, from: nat, limit: nat, r: Replacement)
    requires Ascending(list, from, limit) && r in list
    ensures list[0].start <= r.start
  {
    if r != list[0] {
      AscendingMember(list[1..], list[0].end, limit, r);
    }
  }

  /** Every character outside the ranges is kept, moved by the shift at its position. */
  lemma {:induction false} WeaveKeepsGaps(source: string, from: nat, list: seq<Replacement>, p: nat)
    requires Ascending(list, from, |source|) && from <= p < |source| && Untouched(list, p)
    ensures KeptAt(Weave(source, from, list), p - from + Shift(list, p), source[p])
    decreases |list|
  {
    if list != [] {
      var first, rest := list[0], list[1..];
      assert first in list && forall r :: r in rest ==> r in list;
      if p < first.start {
        FirstGap(source, from, list, p);
      } else {
        AscendingEnds(rest, first.end, |source|);
        WeaveKeepsGaps(source, first.end, rest, p);
        var front, tail := source[from..first.start] + first.value, Weave(source, first.end, rest);
        assert Weave(source, from, list) == front + tail;
        assert Shift(list, p) == |first.value| - (first.end - first.start) + Shift(rest, p);
        hide Weave, Shift, Ascending, Untouched;
      }
    }
  }

  lemma {:induction false} AscendingMember(list: seq<Replacement>, from: nat, limit: nat, r: Replacement)
    requires Ascending(list, from, limit) && r in list
    ensures from <= r.start <= r.end <= limit
    decreases |list|
  {
    AscendingEnds(list[1..], list[0].end, limit);
    if r != list[0] {
      AscendingMember(list[1..], list[0].end, limit, r);
    }
  }

  ghost predicate StandsAt(text: string, at: int, value: string) {
    0 <= at <= at + |value| <= |text| && text[at..at + |value|] == value
  }

  /** Each value stands where its range began, moved by the shift of the ranges before it. */
  lemma {:induction false} WeavePlacesValues(source: string, from: nat, list: seq<Replacement>, k: nat)
    requires Ascending(list, from, |source|) && k < |list|
    ensures StandsAt(Weave(source, from, list), list[k].start - from + Shift(list[..k], list[k].start), list[k].value)
    decreases |list|
  {
    var first, rest := list[0], list[1..];
    AscendingEnds(rest, first.end, |source|);
    var gap, tail := source[from..first.start], Weave(source, first.end, rest);
    assert Weave(source, from, list) == gap + first.value + tail;
    if k == 0 {
      assert list[..0] == [];
      hide Weave, Ascending;
    } else {
      WeavePlacesValues(source, first.end, rest, k - 1);
      AscendingMember(rest, first.end, |source|, rest[k - 1]);
      assert list[..k][1..] == rest[..k - 1] && list[k] == rest[k - 1];
      var before := Shift(rest[..k - 1], list[k].start);
      assert Shift(list[..k], list[k].start) == |first.value| - (first.end - first.start) + before;
      hide Weave, Shift, Ascending, StandsAt;
      Beyond(gap + first.value, tail, list[k].start - first.end + before, list[k].value);
    }
  }

  lemma Beyond(front: string, rest: string, at: int, value: string)
    requires StandsAt(rest, at, value)
    ensures StandsAt(front + rest, |front| + at, value)
  {
    assert (front + rest)[|front| + at..|front| + at + |value|] == rest[at..at + |value|];
  }

  lemma {:induction false} ShiftConcat(a: seq<Replacement>, b: seq<Replacement>, p: int)
    ensures Shift(a + b, p) == Shift(a, p) + Shift(b, p)
  {
    if a == [] {
      assert a + b == b;
    } else {
      assert (a + b)[1..] == a[1..] + b;
      ShiftConcat(a[1..], b, p);
    }
  }

  lemma {:induction false} ShiftForgetsOrder(a: seq<Replacement>, b: seq<Replacement>, p: int)
    requires multiset(a) == multiset(b)
    ensures Shift(a, p) == Shift(b, p)
    decreases |a|
  {
    SameElements(a, b);
    if a != [] {
      assert a[0] in b;
      var i :| 0 <= i < |b| && b[i] == a[0];
      var front, back := b[..i], b[i + 1..];
      assert b == front + ([b[i]] + back);
      WithoutOne(a, front, back);
      ShiftForgetsOrder(a[1..], front + back, p);
      ShiftConcat(front, back, p);
      ShiftConcat(front, [b[i]] + back, p);
      assert ([b[i]] + back)[1..] == back;
    }
  }

  lemma SpliceKeepsTheRest(source: string, replacements: seq<Replacement>, list: seq<Replacement>, p: nat)
    requires Arrangement(replacements, list, |source|) && p < |source| && Untouched(replacements, p)
    ensures KeptAt(Weave(source, 0, list), p + Shift(replacements, p), source[p])
  {
    SameElements(list, replacements);
    assert Untouched(list, p);
    hide Untouched, Ascending;
    ShiftForgetsOrder(list, replacements, p);
    WeaveKeepsGaps(source, 0, list, p);
  }

  /** The code keeps every character outside the ranges, whatever the order of the replacements. */
  lemma RewrittenKeepsTheRest(source: string, replacements: seq<Replacement>, p: nat)
    requires Disjoint(replacements) && SafeTies(replacements) && Within(replacements, |source|)
    requires p < |source| && Untouched(replacements, p)
    ensures KeptAt(Rewritten(source, replacements), p + Shift(replacements, p), source[p])
  {
    hide Rewritten, Shift, Weave, Arrangement, KeptAt, Untouched;
    SafeTiesSplice(source, replacements);
    hide Disjoint, SafeTies, Within;
    var list :| SpliceVia(source, replacements, list, Rewritten(source, replacements));
    SpliceKeepsTheRest(source, replacements, list, p);
  }

  // ---------------------------------------------------------------- replacements of text

  /** Every range holds some text, as the destinations the caller replaces do. */
  ghost predicate NonEmpty(replacements: seq<Replacement>) {
    forall r :: r in replacements ==> r.start < r.end
  }

  /** Ranges that hold text and do not overlap start at different places, so no tie can arise. */
  lemma NonEmptyRangesDoNotTie(replacements: seq<Replacement>)
    requires Disjoint(replacements) && NonEmpty(replacements)
    ensures DistinctStarts(replacements) && SafeTies(replacements)
  {
    forall i, j | 0 <= i < j < |replacements| ensures replacements[i].start != replacements[j].start {
      assert replacements[i] in replacements && replacements[j] in replacements;
      assert Apart(replacements[i], replacements[j]);
    }
  }

  /** For them the code's result is the one simultaneous splice, whatever the order they come in. */
  lemma TextIsSpliced(source: string, replacements: seq<Replacement>, shuffled: seq<Replacement>, r: string)
    requires Disjoint(replacements) && NonEmpty(replacements) && Within(replacements, |source|)
    requires multiset(shuffled) == multiset(replacements)
    ensures IsSplice(source, replacements, r) <==> r == Rewritten(source, shuffled)
  {
    NonEmptyRangesDoNotTie(replacements);
    RewrittenIsTheSplice(source, replacements, shuffled, r);
  }

  /** It keeps every character outside the ranges. */
  lemma TextOutsideIsKept(source: string, replacements: seq<Replacement>, p: nat)
    requires Disjoint(replacements) && NonEmpty(replacements) && Within(replacements, |source|)
    requires p < |source| && Untouched(replacements, p)
    ensures KeptAt(Rewritten(source, replacements), p + Shift(replacements, p), source[p])
  {
    NonEmptyRangesDoNotTie(replacements);
    RewrittenKeepsTheRest(source, replacements, p);
  }

  lemma {:induction false} AscendingTail(list: seq<Replacement>, from: nat, limit: nat, k: nat)
    requires Ascending(list, from, limit) && k < |list|
    ensures Ascending(list[k..], list[k].start, limit)
    decreases |list|
  {
    if k > 0 {
      AscendingTail(list[1..], list[0].end, limit, k - 1);
      assert list[1..][k - 1..] == list[k..];
    } else {
      assert list[0..] == list;
    }
  }

  /** In an arrangement of non-empty ranges, only the ranges before the k-th end by its start. */
  lemma ShiftOfEarlier(list: seq<Replacement>, limit: nat, k: nat)
    requires Ascending(list, 0, limit) && NonEmpty(list) && k < |list|
    ensures Shift(list, list[k].start) == Shift(list[..k], list[k].start)
  {
    var tail := list[k..];
    AscendingTail(list, 0, limit, k);
    AscendingStarts(tail, list[k].start, limit);
    forall r | r in tail ensures list[k].start < r.end {
      assert r in list;
    }
    NothingEndsBefore(tail, list[k].start, limit, list[k].start);
    ShiftConcat(list[..k], tail, list[k].start);
    assert list == list[..k] + tail;
  }

  lemma ArrangedValueStands(source: string, replacements: seq<Replacement>, list: seq<Replacement>, r: Replacement)
    requires Arrangement(replacements, list, |source|) && NonEmpty(replacements) && r in replacements
    ensures StandsAt(Weave(source, 0, list), r.start + Shift(replacements, r.start), r.value)
  {
    SameElements(list, replacements);
    var k: nat :| k < |list| && list[k] == r;
    hide Ascending, Weave, Shift, StandsAt;
    ShiftForgetsOrder(list, replacements, r.start);
    ShiftOfEarlier(list, |source|, k);
    WeavePlacesValues(source, 0, list, k);
  }

  /** And it puts each value where its range began, moved by the ranges that ended before. */
  lemma ValuesStandInPlace(source: string, replacements: seq<Replacement>, r: Replacement)
    requires Disjoint(replacements) && NonEmpty(replacements) && Within(replacements, |source|) && r in replacements
    ensures StandsAt(Rewritten(source, replacements), r.start + Shift(replacements, r.start), r.value)
  {
    hide Rewritten, Shift, Weave, Arrangement, StandsAt;
    NonEmptyRangesDoNotTie(replacements);
    SafeTiesSplice(source, replacements);
    hide Disjoint, SafeTies, DistinctStarts, Within, NonEmpty;
    var list :| SpliceVia(source, replacements, list, Rewritten(source, replacements));
    ArrangedValueStands(source, replacements, list, r);
  }
}

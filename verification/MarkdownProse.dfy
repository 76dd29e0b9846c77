/**
 Prose lines outside HTML comments (docker/support/scripts/markdown.ts).

 Comments arrive as absolute offset ranges, in any order, overlapping or nested; the code cuts
 them into column ranges line by line and glues the uncovered slices of each line together.
 Both steps are related to the one thing that matters: which offsets of the source lie in a
 comment.
 */
module MarkdownProse {
  import opened Wrappers
  import opened Sequences
  import opened Numbers

  /** Positions from start up to, not including, end. */
  datatype Range = Range(start: int, end: int)

  predicate In(p: int, r: Range) {
    r.start <= p < r.end
  }

  predicate Covered(p: int, ranges: seq<Range>) {
    exists k :: 0 <= k < |ranges| && In(p, ranges[k])
  }

  // ---------------------------------------------------------------- lines

  function SplitLines(s: string): (lines: seq<string>)
    ensures |lines| >= 1
  {
    if s == "" then [""]
    else
      var rest := SplitLines(s[1..]);
      if s[0] == '\n' then [""] + rest else [[s[0]] + rest[0]] + rest[1..]
  }

  /** The offset of the first character of a line. */
  function LineStart(lines: seq<string>, i: nat): nat
    requires i <= |lines|
  {
    if i == 0 then 0 else LineStart(lines, i - 1) + |lines[i - 1]| + 1
  }

  lemma {:induction false} LineStartShifts(first: string, rest: seq<string>, i: nat)
    requires i <= |rest|
    ensures LineStart([first] + rest, i + 1) == |first| + 1 + LineStart(rest, i)
  {
    if i > 0 {
      LineStartShifts(first, rest, i - 1);
      assert ([first] + rest)[i] == rest[i - 1];
    }
  }

  lemma {:induction false} LongerFirstLine(first: string, c: char, rest: seq<string>, i: nat)
    requires 1 <= i <= |rest| + 1
    ensures LineStart([[c] + first] + rest, i) == 1 + LineStart([first] + rest, i)
  {
    if i > 1 {
      LongerFirstLine(first, c, rest, i - 1);
    }
  }

  /** Line i, column c is offset LineStart + c, and between two lines stands a line feed. */
  ghost predicate Locates(s: string, lines: seq<string>, i: nat)
    requires i < |lines|
  {
    var start := LineStart(lines, i);
    && start + |lines[i]| <= |s|
    && s[start..start + |lines[i]|] == lines[i]
    && '\n' !in lines[i]
    && (if i + 1 < |lines| then start + |lines[i]| < |s| && s[start + |lines[i]|] == '\n'
        else start + |lines[i]| == |s|)
  }

  lemma {:induction false} LinesAreLocated(s: string, i: nat)
    requires i < |SplitLines(s)|
    ensures Locates(s, SplitLines(s), i)
    decreases |s|
  {
    if s != "" {
      var rest := SplitLines(s[1..]);
      if s[0] == '\n' {
        if i > 0 {
          LinesAreLocated(s[1..], i - 1);
          LineStartShifts("", rest, i - 1);
          Later(s, rest, SplitLines(s), i - 1, i);
        }
      } else {
        LinesAreLocated(s[1..], i);
        if i == 0 {
        } else {
          LongerFirstLine(rest[0], s[0], rest[1..], i);
          assert [rest[0]] + rest[1..] == rest;
          Later(s, rest, SplitLines(s), i, i);
        }
      }
    }
  }

  lemma Later(s: string, rest: seq<string>, lines: seq<string>, j: nat, i: nat)
    requires s != "" && j < |rest| && i < |lines| && Locates(s[1..], rest, j)
    requires LineStart(lines, i) == 1 + LineStart(rest, j) && lines[i] == rest[j]
    requires i + 1 < |lines| <==> j + 1 < |rest|
    ensures Locates(s, lines, i)
  {
    hide LineStart;
    var start, n := LineStart(rest, j), |rest[j]|;
    assert s[1..][start..start + n] == s[1 + start..1 + start + n];
  }

  // ---------------------------------------------------------------- column ranges

  /** Whether a comment leaves a column range on the line of the given length at the offset. */
  predicate Leaves(comment: Range, offset: int, length: nat) {
    || Max(comment.start, offset) < Min(comment.end, offset + length)
    || (length == 0 && comment.start <= offset && comment.end > offset)
  }

  function Columns(comment: Range, offset: int, length: nat): Range {
    Range(Max(comment.start, offset) - offset, Min(comment.end, offset + length) - offset)
  }

  function ColumnRanges(comments: seq<Range>, offset: int, length: nat): (ranges: seq<Range>)
    ensures forall r :: r in ranges ==> 0 <= r.start <= r.end <= length
  {
    if comments == [] then []
    else
      (if Leaves(comments[0], offset, length) then [Columns(comments[0], offset, length)] else [])
      + ColumnRanges(comments[1..], offset, length)
  }

  /** A comment touches a line when it covers one of its characters; an empty line has its line feed. */
  predicate Touches(comment: Range, offset: int, length: nat) {
    exists p :: offset <= p < offset + Max(length, 1) && In(p, comment)
  }

  predicate Touched(comments: seq<Range>, offset: int, length: nat) {
    exists k :: 0 <= k < |comments| && Touches(comments[k], offset, length)
  }

  lemma LeavesIffTouches(comment: Range, offset: int, length: nat)
    ensures Leaves(comment, offset, length) <==> Touches(comment, offset, length)
  {
    if Leaves(comment, offset, length) {
      assert In(Max(comment.start, offset), comment);
    }
  }

  lemma {:induction false} RangesIffTouched(comments: seq<Range>, offset: int, length: nat)
    ensures ColumnRanges(comments, offset, length) != [] <==> Touched(comments, offset, length)
  {
    if comments != [] {
      RangesIffTouched(comments[1..], offset, length);
      LeavesIffTouches(comments[0], offset, length);
      if Touched(comments[1..], offset, length) {
        var k :| 0 <= k < |comments[1..]| && Touches(comments[1..][k], offset, length);
        assert Touches(comments[k + 1], offset, length);
      }
      if Touched(comments, offset, length) {
        var k :| 0 <= k < |comments| && Touches(comments[k], offset, length);
        assert k > 0 ==> comments[1..][k - 1] == comments[k];
      }
    }
  }

  lemma CoveredSplits(p: int, a: seq<Range>, b: seq<Range>)
    ensures Covered(p, a + b) <==> Covered(p, a) || Covered(p, b)
  {
    if k :| 0 <= k < |a| && In(p, a[k]) {
      assert In(p, (a + b)[k]);
    }
    if k :| 0 <= k < |b| && In(p, b[k]) {
      assert In(p, (a + b)[|a| + k]);
    }
    if k :| 0 <= k < |a + b| && In(p, (a + b)[k]) {
      assert k < |a| ==> In(p, a[k]);
      assert k >= |a| ==> In(p, b[k - |a|]);
    }
  }

  /** The column ranges of a line agree with the absolute ranges at every column. */
  lemma {:induction false} ColumnsAgreeWithOffsets(comments: seq<Range>, offset: int, length: nat, column: nat)
    requires column < length
    ensures Covered(column, ColumnRanges(comments, offset, length)) <==> Covered(offset + column, comments)
  {
    if comments != [] {
      ColumnsAgreeWithOffsets(comments[1..], offset, length, column);
      var first := if Leaves(comments[0], offset, length) then [Columns(comments[0], offset, length)] else [];
      CoveredSplits(column, first, ColumnRanges(comments[1..], offset, length));
      CoveredSplits(offset + column, [comments[0]], comments[1..]);
      assert comments == [comments[0]] + comments[1..];
      FirstColumns(comments[0], offset, length, column, first);
    }
  }

  lemma FirstColumns(comment: Range, offset: int, length: nat, column: nat, first: seq<Range>)
    requires column < length
    requires first == if Leaves(comment, offset, length) then [Columns(comment, offset, length)] else []
    ensures Covered(column, first) <==> Covered(offset + column, [comment])
  {
    if In(offset + column, comment) {
      assert Leaves(comment, offset, length) && In(column, first[0]);
      assert In(offset + column, [comment][0]);
    }
  }

  /** The entry of the i-th line: its column ranges, or nothing when there are none. */
  ghost predicate Entry(rawLines: seq<string>, comments: seq<Range>, ranges: map<nat, seq<Range>>, i: nat)
    requires i < |rawLines|
  {
    var expected := ColumnRanges(comments, LineStart(rawLines, i), |rawLines[i]|);
    if expected == [] then i + 1 !in ranges else i + 1 in ranges && ranges[i + 1] == expected
  }

  lemma NextEntry(
      rawLines: seq<string>, comments: seq<Range>, was: map<nat, seq<Range>>, now: map<nat, seq<Range>>, index: nat)
    requires index < |rawLines| && forall i: nat :: i < index ==> Entry(rawLines, comments, was, i)
    requires forall n :: n in was ==> n <= index
    requires now == var found := ColumnRanges(comments, LineStart(rawLines, index), |rawLines[index]|);
                    if found == [] then was else was[index + 1 := found]
    ensures forall i: nat :: i < index + 1 ==> Entry(rawLines, comments, now, i)
  {
    hide ColumnRanges, LineStart;
    forall i: nat | i < index ensures Entry(rawLines, comments, now, i) {
      assert Entry(rawLines, comments, was, i);
    }
  }

  /** Line number to column ranges; a line no comment touches has no entry. */
  method HtmlCommentRanges(rawLines: seq<string>, comments: seq<Range>) returns (ranges: map<nat, seq<Range>>)
    ensures forall i: nat :: i < |rawLines| ==> Entry(rawLines, comments, ranges, i)
  {
    ranges := map[];
    var lineOffset := 0;
    for index := 0 to |rawLines|
      invariant lineOffset == LineStart(rawLines, index)
      invariant forall n :: n in ranges ==> n <= index
      invariant forall i: nat :: i < index ==> Entry(rawLines, comments, ranges, i)
    {
      hide Entry, ColumnRanges;
      ghost var was := ranges;
      var lineRanges := RangesOnLine(comments, lineOffset, |rawLines[index]|);
      if lineRanges != [] {
        ranges := ranges[index + 1 := lineRanges];
      }
      NextEntry(rawLines, comments, was, ranges, index);
      lineOffset := lineOffset + |rawLines[index]| + 1;
    }
  }

  /** A line has an entry exactly when a comment touches it. */
  lemma EntryIffTouched(rawLines: seq<string>, comments: seq<Range>, ranges: map<nat, seq<Range>>, i: nat)
    requires i < |rawLines| && Entry(rawLines, comments, ranges, i)
    ensures i + 1 in ranges <==> Touched(comments, LineStart(rawLines, i), |rawLines[i]|)
  {
    RangesIffTouched(comments, LineStart(rawLines, i), |rawLines[i]|);
  }

  method RangesOnLine(comments: seq<Range>, lineOffset: nat, length: nat) returns (lineRanges: seq<Range>)
    ensures lineRanges == ColumnRanges(comments, lineOffset, length)
  {
    var lineEnd := lineOffset + length;
    lineRanges := [];
    for k := 0 to |comments|
      invariant lineRanges == ColumnRanges(comments[..k], lineOffset, length)
    {
      var from := Max(comments[k].start, lineOffset);
      var to := Min(comments[k].end, lineEnd);
      var coversEmptyLine := length == 0 && comments[k].start <= lineOffset && comments[k].end > lineOffset;
      hide ColumnRanges;
      assert comments[..k + 1] == comments[..k] + [comments[k]];
      ColumnRangesAppend(comments[..k], comments[k], lineOffset, length);
      if from < to || coversEmptyLine {
        lineRanges := lineRanges + [Range(from - lineOffset, to - lineOffset)];
      }
    }
    assert comments[..|comments|] == comments;
  }

  lemma {:induction false} ColumnRangesAppend(comments: seq<Range>, comment: Range, offset: int, length: nat)
    ensures ColumnRanges(comments + [comment], offset, length)
         == ColumnRanges(comments, offset, length)
            + if Leaves(comment, offset, length) then [Columns(comment, offset, length)] else []
  {
    if comments == [] {
      assert comments + [comment] == [comment];
    } else {
      assert (comments + [comment])[1..] == comments[1..] + [comment];
      ColumnRangesAppend(comments[1..], comment, offset, length);
    }
  }

  // ---------------------------------------------------------------- what stays visible

  /** The code units `trim` removes: white space and line terminators. */
  predicate Blank(c: char) {
    || '\t' <= c <= '\r' || c == ' ' || c == '\U{00a0}' || c == '\U{1680}' || '\U{2000}' <= c <= '\U{200a}'
    || c == '\U{2028}' || c == '\U{2029}' || c == '\U{202f}' || c == '\U{205f}' || c == '\U{3000}' || c == '\U{feff}'
  }

  /** White space and line ends of ECMA-262, sections 12.2 and 12.3, by code point. */
  lemma BlanksAre(c: char)
    ensures Blank(c) <==>
              c as int in {
                0x9, 0xA, 0xB, 0xC, 0xD, 0x20, 0xA0, 0x1680, 0x2000, 0x2001, 0x2002, 0x2003, 0x2004, 0x2005, 0x2006,
                0x2007, 0x2008, 0x2009, 0x200A, 0x2028, 0x2029, 0x202F, 0x205F, 0x3000, 0xFEFF}
  {
  }

  function TrimStart(s: string): string {
    if s != "" && Blank(s[0]) then TrimStart(s[1..]) else s
  }

  function TrimEnd(s: string): string {
    if s != "" && Blank(s[|s| - 1]) then TrimEnd(s[..|s| - 1]) else s
  }

  function Trim(s: string): string {
    TrimEnd(TrimStart(s))
  }

  predicate Inked(s: string) {
    exists p :: 0 <= p < |s| && !Blank(s[p])
  }

  lemma {:induction false} TrimStartKeepsInk(s: string)
    ensures Inked(TrimStart(s)) <==> Inked(s)
  {
    if s != "" && Blank(s[0]) {
      TrimStartKeepsInk(s[1..]);
      if p :| 0 <= p < |s| && !Blank(s[p]) {
        assert s[1..][p - 1] == s[p];
      }
      if p :| 0 <= p < |s[1..]| && !Blank(s[1..][p]) {
        assert s[p + 1] == s[1..][p];
      }
    }
  }

  lemma {:induction false} TrimEndIsEmptyIff(s: string)
    ensures TrimEnd(s) != "" <==> Inked(s)
  {
    if s != "" && Blank(s[|s| - 1]) {
      var front := s[..|s| - 1];
      TrimEndIsEmptyIff(front);
      if p :| 0 <= p < |s| && !Blank(s[p]) {
        assert front[p] == s[p];
      }
      if p :| 0 <= p < |front| && !Blank(front[p]) {
        assert s[p] == front[p];
      }
    }
  }

  /** Text survives trimming exactly when it holds a character that is not blank. */
  lemma TrimIsEmptyIff(s: string)
    ensures |Trim(s)| > 0 <==> Inked(s)
  {
    TrimStartKeepsInk(s);
    TrimEndIsEmptyIff(TrimStart(s));
  }

  /** A character of the line outside every range, before the limit. */
  ghost predicate VisibleBefore(raw: string, ranges: seq<Range>, limit: int) {
    exists p :: 0 <= p < limit && p < |raw| && !Blank(raw[p]) && !Covered(p, ranges)
  }

  /** String slicing as in JavaScript, for positions inside the string: empty when start is past end. */
  function Slice(s: string, start: nat, end: nat): string
    requires end <= |s| && start <= |s|
  {
    if start <= end then s[start..end] else ""
  }

  lemma InkConcat(a: string, b: string)
    ensures Inked(a + b) <==> Inked(a) || Inked(b)
  {
    if p :| 0 <= p < |a| && !Blank(a[p]) {
      assert !Blank((a + b)[p]);
    }
    if p :| 0 <= p < |b| && !Blank(b[p]) {
      assert !Blank((a + b)[|a| + p]);
    }
    if p :| 0 <= p < |a + b| && !Blank((a + b)[p]) {
      assert p < |a| ==> !Blank(a[p]);
      assert p >= |a| ==> !Blank(b[p - |a|]);
    }
  }

  ghost predicate OnLine(ranges: seq<Range>, length: nat) {
    forall r :: r in ranges ==> 0 <= r.start <= r.end <= length
  }

  ghost predicate ByStart(sorted: seq<Range>) {
    forall i, j :: 0 <= i < j < |sorted| ==> sorted[i].start <= sorted[j].start
  }

  ghost predicate EndedBy(sorted: seq<Range>, k: nat, cursor: nat)
    requires k <= |sorted|
  {
    forall j :: 0 <= j < k ==> sorted[j].end <= cursor
  }

  /** Moving the cursor over the k-th range adds to the visible text exactly the gap before it. */
  lemma NextGap(raw: string, sorted: seq<Range>, k: nat, cursor: nat)
    requires k < |sorted| && ByStart(sorted) && OnLine(sorted, |raw|) && EndedBy(sorted, k, cursor) && cursor <= |raw|
    ensures sorted[k] in sorted && 0 <= sorted[k].start <= |raw|
    ensures VisibleBefore(raw, sorted, Max(cursor, sorted[k].end))
            <==> VisibleBefore(raw, sorted, cursor) || Inked(Slice(raw, cursor, sorted[k].start))
  {
    var r := sorted[k];
    assert r in sorted;
    var gap := Slice(raw, cursor, r.start);
    if q :| 0 <= q < |gap| && !Blank(gap[q]) {
      assert raw[cursor + q] == gap[q];
    }
    if p :| 0 <= p < Max(cursor, r.end) && p < |raw| && !Blank(raw[p]) && !Covered(p, sorted) {
      if cursor <= p {
        assert !In(p, r);
        assert gap[p - cursor] == raw[p];
      }
    }
  }

  lemma CoverageForgetsOrder(p: int, a: seq<Range>, b: seq<Range>)
    requires forall r :: r in a <==> r in b
    ensures Covered(p, a) <==> Covered(p, b)
  {
    if k :| 0 <= k < |a| && In(p, a[k]) {
      assert a[k] in b;
    }
    if k :| 0 <= k < |b| && In(p, b[k]) {
      assert b[k] in a;
    }
  }

  lemma SortedByStart(ranges: seq<Range>, compare: (Range, Range) -> int)
    requires forall left, right :: compare(left, right) == left.start - right.start
    ensures ByStart(Sort(ranges, compare)) && forall r :: r in Sort(ranges, compare) <==> r in ranges
  {
    var sorted := Sort(ranges, compare);
    SortIsSorted(ranges, compare);
    forall i, j | 0 <= i < j < |sorted| ensures sorted[i].start <= sorted[j].start {
      assert compare(sorted[i], sorted[j]) <= 0;
    }
    SortKeepsElements(ranges, compare);
    SameElements(sorted, ranges);
  }

  /** Whatever the order and overlap of the ranges: text remains when a character outside all of them is not blank. */
  method HasRenderedTextOutsideComments(raw: string, ranges: Option<seq<Range>>) returns (r: bool)
    requires ranges.Some? ==> OnLine(ranges.value, |raw|)
    ensures r <==> ranges.None? || VisibleBefore(raw, ranges.value, |raw|)
  {
    if ranges.None? {
      return true;
    }
    var compare := (left: Range, right: Range) => left.start - right.start;
    var sorted := Sort(ranges.value, compare);
    SortedByStart(ranges.value, compare);
    var cursor: nat := 0;
    var visible := "";
    for k := 0 to |sorted|
      invariant cursor <= |raw| && EndedBy(sorted, k, cursor)
      invariant Inked(visible) <==> VisibleBefore(raw, sorted, cursor)
    {
      NextGap(raw, sorted, k, cursor);
      InkConcat(visible, Slice(raw, cursor, sorted[k].start));
      visible := visible + Slice(raw, cursor, sorted[k].start);
      cursor := Max(cursor, sorted[k].end);
    }
    InkConcat(visible, raw[cursor..]);
    visible := visible + raw[cursor..];
    TrimIsEmptyIff(visible);
    VisibilityForgetsOrder(raw, sorted, ranges.value);
    return |Trim(visible)| > 0;
  }

  lemma VisibilityForgetsOrder(raw: string, a: seq<Range>, b: seq<Range>)
    requires forall r :: r in a <==> r in b
    ensures VisibleBefore(raw, a, |raw|) <==> VisibleBefore(raw, b, |raw|)
  {
    forall p: int ensures Covered(p, a) <==> Covered(p, b) {
      CoverageForgetsOrder(p, a, b);
    }
  }

  // ---------------------------------------------------------------- the filter

  datatype ProseLine = ProseLine(index: nat, raw: string)

  /**
   In terms of the source alone: the line starting at the offset holds a character that is neither blank nor in a
   comment.
   */
  ghost predicate ShowsText(source: string, comments: seq<Range>, offset: nat, length: nat) {
    exists o :: offset <= o < offset + length && o < |source| && !Blank(source[o]) && !Covered(o, comments)
  }

  /** The rule: a line stays when no comment touches it, or some of its text lies outside every comment. */
  ghost predicate Stays(source: string, comments: seq<Range>, i: nat)
    requires i < |SplitLines(source)|
  {
    var lines := SplitLines(source);
    var offset := LineStart(lines, i);
    !Touched(comments, offset, |lines[i]|) || ShowsText(source, comments, offset, |lines[i]|)
  }

  /** Visible columns of a line are visible offsets of the source. */
  lemma VisibleIffShows(source: string, comments: seq<Range>, i: nat)
    requires i < |SplitLines(source)|
    ensures var line, offset := SplitLines(source)[i], LineStart(SplitLines(source), i);
            VisibleBefore(line, ColumnRanges(comments, offset, |line|), |line|)
            <==> ShowsText(source, comments, offset, |line|)
  {
    LinesAreLocated(source, i);
    var line, offset := SplitLines(source)[i], LineStart(SplitLines(source), i);
    var ranges := ColumnRanges(comments, offset, |line|);
    forall p: nat | p < |line|
      ensures line[p] == source[offset + p] && (Covered(p, ranges) <==> Covered(offset + p, comments))
    {
      ColumnsAgreeWithOffsets(comments, offset, |line|, p);
      assert source[offset..offset + |line|][p] == source[offset + p];
    }
    if p :| 0 <= p < |line| && p < |line| && !Blank(line[p]) && !Covered(p, ranges) {
      assert !Blank(source[offset + p]) && !Covered(offset + p, comments);
    }
    if o :| offset <= o < offset + |line| && o < |source| && !Blank(source[o]) && !Covered(o, comments) {
      var p: nat := o - offset;
      assert !Blank(line[p]) && !Covered(p, ranges);
    }
  }

  ghost predicate Kept(source: string, comments: seq<Range>, fenced: set<nat>, i: nat) {
    i < |SplitLines(source)| && i + 1 !in fenced && Stays(source, comments, i)
  }

  ghost predicate HasIndex(kept: seq<ProseLine>, index: nat) {
    exists k :: 0 <= k < |kept| && kept[k].index == index
  }

  ghost predicate OnlyKept(source: string, comments: seq<Range>, fenced: set<nat>, kept: seq<ProseLine>, limit: nat) {
    && (forall k :: 0 <= k < |kept| ==> 1 <= kept[k].index <= limit && Kept(source, comments, fenced, kept[k].index - 1)
                                        && kept[k].raw == SplitLines(source)[kept[k].index - 1])
    && (forall j, k :: 0 <= j < k < |kept| ==> kept[j].index < kept[k].index)
  }

  ghost predicate AllKept(source: string, comments: seq<Range>, fenced: set<nat>, kept: seq<ProseLine>, limit: nat) {
    forall i: nat :: i < limit && Kept(source, comments, fenced, i) ==> HasIndex(kept, i + 1)
  }

  /** The lines with an index up to the limit that are kept, in order and verbatim. */
  ghost predicate KeepsUpTo(source: string, comments: seq<Range>, fenced: set<nat>, kept: seq<ProseLine>, limit: nat) {
    OnlyKept(source, comments, fenced, kept, limit) && AllKept(source, comments, fenced, kept, limit)
  }

  lemma KeepNext(
      source: string, comments: seq<Range>, fenced: set<nat>, kept: seq<ProseLine>, i: nat, next: seq<ProseLine>)
    requires i < |SplitLines(source)| && KeepsUpTo(source, comments, fenced, kept, i)
    requires next == if Kept(source, comments, fenced, i) then [ProseLine(i + 1, SplitLines(source)[i])] else []
    ensures KeepsUpTo(source, comments, fenced, kept + next, i + 1)
  {
    hide OnlyKept, AllKept, Kept, SplitLines;
    KeepNextOnly(source, comments, fenced, kept, i, next);
    KeepNextAll(source, comments, fenced, kept, i, next);
  }

  lemma KeepNextOnly(
      source: string, comments: seq<Range>, fenced: set<nat>, kept: seq<ProseLine>, i: nat, next: seq<ProseLine>)
    requires i < |SplitLines(source)| && OnlyKept(source, comments, fenced, kept, i)
    requires next == if Kept(source, comments, fenced, i) then [ProseLine(i + 1, SplitLines(source)[i])] else []
    ensures OnlyKept(source, comments, fenced, kept + next, i + 1)
  {
    hide Kept, SplitLines;
  }

  lemma KeepNextAll(
      source: string, comments: seq<Range>, fenced: set<nat>, kept: seq<ProseLine>, i: nat, next: seq<ProseLine>)
    requires AllKept(source, comments, fenced, kept, i)
    requires Kept(source, comments, fenced, i) ==> |next| == 1 && next[0].index == i + 1
    ensures AllKept(source, comments, fenced, kept + next, i + 1)
  {
    hide Kept, SplitLines;
    var longer := kept + next;
    forall h: nat | h < i + 1 && Kept(source, comments, fenced, h) ensures HasIndex(longer, h + 1) {
      if h < i {
        assert HasIndex(kept, h + 1);
        var k :| 0 <= k < |kept| && kept[k].index == h + 1;
        assert longer[k].index == h + 1;
      } else {
        assert longer[|kept|].index == h + 1;
      }
    }
  }

  /** Exactly the lines the rule keeps, in source order, each with its own text and number. */
  method MarkdownProseLines(source: string, comments: seq<Range>, fenced: set<nat>) returns (kept: seq<ProseLine>)
    ensures KeepsUpTo(source, comments, fenced, kept, |SplitLines(source)|)
  {
    var rawLines := SplitLines(source);
    var ranges := HtmlCommentRanges(rawLines, comments);
    kept := [];
    for i := 0 to |rawLines|
      invariant KeepsUpTo(source, comments, fenced, kept, i)
    {
      var next := [];
      if i + 1 !in fenced {
        var found := if i + 1 in ranges then Some(ranges[i + 1]) else None;
        assert Entry(rawLines, comments, ranges, i);
        var renders := HasRenderedTextOutsideComments(rawLines[i], found);
        EntryIffTouched(rawLines, comments, ranges, i);
        VisibleIffShows(source, comments, i);
        if renders {
          next := [ProseLine(i + 1, rawLines[i])];
        }
      }
      KeepNext(source, comments, fenced, kept, i, next);
      kept := kept + next;
    }
  }
}

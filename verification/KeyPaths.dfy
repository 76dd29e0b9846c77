/**
 Schema key paths such as `agents[].id`, and the check of one path against a declared type
 (docker/support/scripts/gen-config-catalog.ts).
 */
module KeyPaths {
  import opened Wrappers
  import opened TypeMeaning
  import opened TypePathLookup

  /** The text of a key path: members joined by dots, one `[]` per array hop. */
  function Render(steps: seq<Step>): string {
    if steps == [] then ""
    else
      var before := Render(steps[..|steps| - 1]);
      match steps[|steps| - 1]
      case Member(name) => if |steps| == 1 then name else before + "." + name
      case ArrayHop => before + "[]"
  }

  predicate EndsWithBrackets(s: string) {
    |s| >= 2 && s[|s| - 2..] == "[]"
  }

  /** The steps a key path can denote: members first, no dot and no trailing `[]` inside a name. */
  ghost predicate Proper(steps: seq<Step>) {
    && steps != [] && steps[0].Member?
    && forall s :: s in steps && s.Member? ==> '.' !in s.name && !EndsWithBrackets(s.name)
  }

  /** The part of a path before its first dot, and the rest after it. */
  method SplitSegment(path: string) returns (segment: string, rest: Option<string>)
    ensures '.' !in segment
    ensures path == if rest.Some? then segment + "." + rest.value else segment
  {
    var i := 0;
    while i < |path| && path[i] != '.'
      invariant 0 <= i <= |path| && '.' !in path[..i]
    {
      i := i + 1;
    }
    segment := path[..i];
    rest := if i < |path| then Some(path[i + 1..]) else None;
  }

  /** Take the trailing `[]` pairs off a segment and count them. */
  method StripBrackets(segment: string) returns (name: string, arrays: nat)
    requires '.' !in segment
    ensures '.' !in name && !EndsWithBrackets(name) && segment == name + Hops(arrays)
  {
    name, arrays := segment, 0;
    while EndsWithBrackets(name)
      invariant '.' !in name && segment == name + Hops(arrays)
      decreases |name|
    {
      assert name == name[..|name| - 2] + "[]";
      HopsAppend(arrays);
      name, arrays := name[..|name| - 2], arrays + 1;
    }
  }

  method PushSegment(steps: seq<Step>, name: string, arrays: nat) returns (more: seq<Step>)
    requires steps == [] || Proper(steps)
    requires '.' !in name && !EndsWithBrackets(name)
    ensures Proper(more)
    ensures Render(more) == (if steps == [] then name else Render(steps) + "." + name) + Hops(arrays)
  {
    RenderMember(steps, name);
    more := steps + [Member(name)];
    ghost var named := Render(more);
    for i := 0 to arrays
      invariant Proper(more) && Render(more) == named + Hops(i)
    {
      RenderHop(more);
      more := more + [ArrayHop];
    }
  }

  /** Parsing loses nothing: the steps are proper and render to the path that was parsed. */
  method ParsePath(path: string) returns (steps: seq<Step>)
    ensures Proper(steps) && Render(steps) == path
  {
    hide Render, Proper, EndsWithBrackets;
    steps := [];
    var rest := Some(path);
    while rest.Some?
      invariant steps == [] ==> rest == Some(path)
      invariant steps != [] ==> Proper(steps) && path == Render(steps) + if rest.Some? then "." + rest.value else ""
      invariant rest.None? ==> steps != []
      decreases if rest.Some? then 1 + |rest.value| else 0
    {
      var segment, next := SplitSegment(rest.value);
      var name, arrays := StripBrackets(segment);
      SegmentText(if steps == [] then None else Some(Render(steps)), path, rest.value, name, Hops(arrays), next);
      steps := PushSegment(steps, name, arrays);
      Nonempty(steps);
      rest := next;
    }
  }

  /** Concatenation only: taking one segment off the rest moves it to the rendered part. */
  lemma SegmentText(
      before: Option<string>, path: string, rest: string, name: string, hops: string, next: Option<string>)
    requires path == if before.Some? then before.value + ("." + rest) else rest
    requires rest == if next.Some? then name + hops + "." + next.value else name + hops
    ensures path == ((if before.None? then name else before.value + "." + name) + hops)
                    + if next.Some? then "." + next.value else ""
  {
  }

  lemma Nonempty(steps: seq<Step>)
    requires Proper(steps)
    ensures steps != []
  {
  }

  function Hops(n: nat): string {
    if n == 0 then "" else Hops(n - 1) + "[]"
  }

  lemma {:induction false} HopsAppend(n: nat)
    ensures "[]" + Hops(n) == Hops(n + 1)
  {
    if n > 0 {
      HopsAppend(n - 1);
      assert "[]" + Hops(n) == ("[]" + Hops(n - 1)) + "[]";
    }
  }

  lemma RenderMember(steps: seq<Step>, name: string)
    ensures Render(steps + [Member(name)]) == if steps == [] then name else Render(steps) + "." + name
  {
    assert (steps + [Member(name)])[..|steps|] == steps;
  }

  lemma RenderHop(steps: seq<Step>)
    ensures Render(steps + [ArrayHop]) == Render(steps) + "[]"
  {
    assert (steps + [ArrayHop])[..|steps|] == steps;
  }

  /** A rendered path ends in brackets exactly when its last step is an array hop. */
  lemma LastStepShows(steps: seq<Step>)
    requires Proper(steps)
    ensures EndsWithBrackets(Render(steps)) <==> steps[|steps| - 1].ArrayHop?
  {
    var text, last := Render(steps), steps[|steps| - 1];
    if last.Member? {
      assert last in steps;
      if |last.name| >= 2 {
        assert text[|text| - 2..] == last.name[|last.name| - 2..];
      } else if |steps| > 1 && |last.name| == 1 {
        assert text[|text| - 2] == '.';
      } else if |steps| > 1 {
        assert text[|text| - 1] == '.';
      }
    }
  }

  lemma LongerPrefixHasDot(a: string, x: string, b: string, y: string)
    requires a + "." + x == b + "." + y && |a| < |b|
    ensures '.' in x
  {
    assert (a + "." + x)[|b|] == '.' && (a + "." + x)[|b|] == x[|b| - |a| - 1];
  }

  lemma SplitAtLastDot(a: string, x: string, b: string, y: string)
    requires a + "." + x == b + "." + y && '.' !in x && '.' !in y
    ensures a == b && x == y
  {
    var s := a + "." + x;
    if |a| < |b| {
      LongerPrefixHasDot(a, x, b, y);
    } else if |b| < |a| {
      LongerPrefixHasDot(b, y, a, x);
    } else {
      assert a == s[..|a|] == b && x == s[|a| + 1..] == y;
    }
  }

  lemma DropSuffix(a: string, b: string, suffix: string)
    requires a + suffix == b + suffix
    ensures a == b
  {
    assert a == (a + suffix)[..|a|] && b == (b + suffix)[..|b|];
  }

  lemma MembersAreDotted(steps: seq<Step>)
    requires Proper(steps) && |steps| > 1 && steps[|steps| - 1].Member?
    ensures '.' in Render(steps)
  {
    assert Render(steps)[|Render(steps[..|steps| - 1])|] == '.';
  }

  lemma {:induction false} RenderedDot(steps: seq<Step>, name: string)
    requires Proper(steps) && '.' !in name && Render(steps) == name && steps[|steps| - 1].Member?
    ensures steps == [Member(name)]
  {
    if |steps| > 1 {
      MembersAreDotted(steps);
    }
    assert steps == [steps[0]];
  }

  /** A path denotes one step list only, so `ParsePath` is the inverse of `Render` in both directions. */
  lemma {:induction false} RenderIsInjective(a: seq<Step>, b: seq<Step>)
    requires Proper(a) && Proper(b) && Render(a) == Render(b)
    ensures a == b
    decreases |a|
  {
    LastStepShows(a);
    LastStepShows(b);
    var la, lb := a[|a| - 1], b[|b| - 1];
    var pa, pb := a[..|a| - 1], b[..|b| - 1];
    assert a == pa + [la] && b == pb + [lb] && la in a && lb in b;
    if la.ArrayHop? {
      DropSuffix(Render(pa), Render(pb), "[]");
      RenderIsInjective(pa, pb);
    } else if |a| == 1 {
      RenderedDot(b, la.name);
    } else if |b| == 1 {
      RenderedDot(a, lb.name);
    } else {
      SplitAtLastDot(Render(pa), la.name, Render(pb), lb.name);
      RenderIsInjective(pa, pb);
    }
  }

  // ---------------------------------------------------------------- the check

  /** The step list a path text denotes. */
  ghost predicate Denotes(path: string, steps: seq<Step>) {
    Proper(steps) && Render(steps) == path
  }

  lemma ArrayElementsAreWrittenSo()
    ensures Denotes("agents[].id", [Member("agents"), ArrayHop, Member("id")])
  {
    var agents, id := Member("agents"), Member("id");
    assert Proper([agents, ArrayHop, id]);
    hide Proper, Render;
    RenderMember([], "agents");
    assert [] + [agents] == [agents];
    RenderHop([agents]);
    assert [agents] + [ArrayHop] == [agents, ArrayHop];
    RenderMember([agents, ArrayHop], "id");
    assert [agents, ArrayHop] + [id] == [agents, ArrayHop, id];
  }

  /** Some derivation has the path, and none lacks it. */
  ghost predicate DefinitelyHas(w: World, c: Call) {
    (exists n: nat :: HasCall(w, n, c)) && forall n: nat :: !LacksCall(w, n, c)
  }

  ghost predicate DefinitelyLacks(w: World, c: Call) {
    (exists n: nat :: LacksCall(w, n, c)) && forall n: nat :: !HasCall(w, n, c)
  }

  /**
   Every answer is the truth; a definitely missing path is reported exactly when nothing is entered
   twice, and then a path definitely had is found as well.
   */
  lemma AnswersAreTrue(w: World, depth: nat, c: Call)
    requires Eval(w, depth, c, {}).Some?
    ensures var v := Eval(w, depth, c, {}).value.verdict;
            && (v == Found ==> DefinitelyHas(w, c)) && (v == Missing ==> DefinitelyLacks(w, c))
            && (DefinitelyLacks(w, c) ==> (v == Missing <==> !EntersTwice(w, c)))
            && (!EntersTwice(w, c) ==> (v == Found <==> DefinitelyHas(w, c)))
  {
    var o := Eval(w, depth, c, {}).value;
    AnswersAreSound(w, depth, c, {});
    CutIffEntersTwice(w, depth, c);
    if DefinitelyLacks(w, c) {
      MissingReportedIff(w, depth, c);
    }
    hide Eval, HasCall, LacksCall;
    forall n: nat
      ensures o.verdict == Found ==> !LacksCall(w, n, c)
      ensures o.verdict == Missing ==> !HasCall(w, n, c)
      ensures !o.cut ==> (HasCall(w, n, c) ==> o.verdict == Found) && (LacksCall(w, n, c) ==> o.verdict == Missing)
    {
      VerdictsExclude(w, depth, n, c);
      VerdictsExclude(w, n, depth, c);
      if !o.cut {
        UncutAnswersAreComplete(w, depth, c, {}, n);
      }
    }
  }

  /**
   The check of one key path against a declaration, wherever it ends: only a path the type
   definitely lacks is missing and only one it definitely has is found.  A definitely missing path
   is reported exactly when the unfolding enters no declaration twice with equally many steps to
   go, and a path definitely had is found then, too.
   */
  method LookupKeyPath(w: World, id: DeclId, path: string) returns (v: Verdict)
    requires id in w.decls && forall steps :: Denotes(path, steps) ==> Ends(w, DeclCall(id, steps), {})
    ensures exists steps :: Denotes(path, steps)
    ensures v == Found ==> forall steps :: Denotes(path, steps) ==> DefinitelyHas(w, DeclCall(id, steps))
    ensures v == Missing ==> forall steps :: Denotes(path, steps) ==> DefinitelyLacks(w, DeclCall(id, steps))
    ensures forall steps :: Denotes(path, steps) && DefinitelyLacks(w, DeclCall(id, steps)) ==>
              (v == Missing <==> !EntersTwice(w, DeclCall(id, steps)))
    ensures forall steps :: Denotes(path, steps) && !EntersTwice(w, DeclCall(id, steps)) ==>
              (v == Found <==> DefinitelyHas(w, DeclCall(id, steps)))
  {
    var steps := ParsePath(path);
    assert Denotes(path, steps);
    forall other | Denotes(path, other) ensures other == steps {
      RenderIsInjective(other, steps);
    }
    hide Denotes, DefinitelyHas, DefinitelyLacks, EntersTwice, Eval;
    ghost var depth: nat :| Eval(w, depth, DeclCall(id, steps), {}).Some?;
    var walk := new Walk(w);
    v := walk.LookupDecl(id, steps, depth);
    AnswersAreTrue(w, depth, DeclCall(id, steps));
  }
}

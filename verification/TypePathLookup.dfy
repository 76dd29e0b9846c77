/**
 The three-valued walk of a path through declared types
 (docker/support/scripts/gen-config-catalog.ts).

 `Found` and `Missing` are definite answers, `Unknown` is none.  `Eval` is the walk with its
 shared visited set, cut off at a recursion depth; the class `Walk` is the walk itself, which
 ends exactly where some depth is enough.  Whatever answer is given, on any world and from any
 visited set, is true.  A missing path is reported exactly when the unfolding of the call, without
 any visited set, enters no declaration twice with equally many steps to go.
 */
module TypePathLookup {
  import opened Wrappers
  import opened TypeMeaning

  /** One guard of the visited set: a declaration entered with that many steps to go. */
  datatype Key = Key(id: DeclId, remaining: nat)

  /** Only interfaces and aliases are guarded, and only while steps remain. */
  function Guard(w: World, c: Call): Option<Key> {
    if c.DeclCall? && c.steps != [] && c.id in w.decls && !w.decls[c.id].EnumDeclaration?
    then Some(Key(c.id, |c.steps|))
    else None
  }

  predicate Blocked(w: World, c: Call, seen: set<Key>) {
    Guard(w, c).Some? && Guard(w, c).value in seen
  }

  function Enter(w: World, c: Call, seen: set<Key>): set<Key> {
    if Guard(w, c).Some? then seen + {Guard(w, c).value} else seen
  }

  /** Any found wins, else any unknown taints, else missing. */
  function Combine(results: seq<Verdict>): Verdict {
    if Found in results then Found
    else if Unknown in results then Unknown
    else Missing
  }

  /** Presence on a union is only definite when every branch agrees. */
  function UnionVerdict(results: seq<Verdict>): Verdict {
    if forall v :: v in results ==> v == Found then Found
    else if forall v :: v in results ==> v == Missing then Missing
    else Unknown
  }

  // ---------------------------------------------------------------- the walk to a depth

  /** The verdict, the visited set afterwards, and whether the visited set stopped some call. */
  datatype Outcome = Outcome(verdict: Verdict, seen: set<Key>, cut: bool)

  datatype Outcomes = Outcomes(verdicts: seq<Verdict>, seen: set<Key>, cut: bool)

  function Conclude(m: Move, o: Outcomes): Outcome {
    Outcome(if m.AllOf? then UnionVerdict(o.verdicts) else Combine(o.verdicts), o.seen, o.cut)
  }

  /** The walk with recursion up to a depth; None when the depth is not enough. */
  function Eval(w: World, depth: nat, c: Call, seen: set<Key>): Option<Outcome>
    decreases depth, 0
  {
    if depth == 0 then None
    else if Blocked(w, c, seen) then Some(Outcome(Unknown, seen, true))
    else
      var m := Expand(w, c);
      if m.Answer? then Some(Outcome(m.verdict, Enter(w, c, seen), false))
      else
        var o := EvalParts(w, depth - 1, m.parts, Enter(w, c, seen));
        if o.Some? then Some(Conclude(m, o.value)) else None
  }

  function EvalPart(w: World, depth: nat, p: Part, seen: set<Key>): Option<Outcome>
    decreases depth, 1
  {
    if p.Visit? then Eval(w, depth, p.call, seen) else Some(Outcome(Unknown, seen, false))
  }

  /** The parts from left to right, each with the visited set the one before left behind. */
  function EvalParts(w: World, depth: nat, parts: seq<Part>, seen: set<Key>): Option<Outcomes>
    decreases depth, 2 + |parts|
  {
    if parts == [] then Some(Outcomes([], seen, false))
    else
      var first := EvalPart(w, depth, parts[0], seen);
      if first.None? then None
      else
        var rest := EvalParts(w, depth, parts[1..], first.value.seen);
        if rest.None? then None
        else
          var cut := first.value.cut || rest.value.cut;
          Some(Outcomes([first.value.verdict] + rest.value.verdicts, rest.value.seen, cut))
  }

  /** The walk of this call answers. */
  ghost predicate Ends(w: World, c: Call, seen: set<Key>) {
    exists depth: nat :: Eval(w, depth, c, seen).Some?
  }

  lemma {:induction false} EvalPartsShape(w: World, depth: nat, parts: seq<Part>, seen: set<Key>)
    requires EvalParts(w, depth, parts, seen).Some?
    ensures |EvalParts(w, depth, parts, seen).value.verdicts| == |parts|
    decreases |parts|
  {
    if parts != [] {
      EvalPartsShape(w, depth, parts[1..], EvalPart(w, depth, parts[0], seen).value.seen);
    }
  }

  /** A greater depth changes nothing once the walk answers. */
  lemma {:induction false} MoreDepth(w: World, depth: nat, more: nat, c: Call, seen: set<Key>)
    requires depth <= more && Eval(w, depth, c, seen).Some?
    ensures Eval(w, more, c, seen) == Eval(w, depth, c, seen)
    decreases depth, 0
  {
    if !Blocked(w, c, seen) && !Expand(w, c).Answer? {
      MoreDepthForParts(w, depth - 1, more - 1, Expand(w, c).parts, Enter(w, c, seen));
    }
  }

  lemma {:induction false} MoreDepthForParts(w: World, depth: nat, more: nat, parts: seq<Part>, seen: set<Key>)
    requires depth <= more && EvalParts(w, depth, parts, seen).Some?
    ensures EvalParts(w, more, parts, seen) == EvalParts(w, depth, parts, seen)
    decreases depth, 1 + |parts|
  {
    if parts != [] {
      if parts[0].Visit? {
        MoreDepth(w, depth, more, parts[0].call, seen);
      }
      MoreDepthForParts(w, depth, more, parts[1..], EvalPart(w, depth, parts[0], seen).value.seen);
    }
  }

  lemma {:induction false} SeenGrows(w: World, depth: nat, c: Call, seen: set<Key>)
    requires Eval(w, depth, c, seen).Some?
    ensures Enter(w, c, seen) <= Eval(w, depth, c, seen).value.seen
    decreases depth, 0
  {
    if !Blocked(w, c, seen) && !Expand(w, c).Answer? {
      SeenGrowsOverParts(w, depth - 1, Expand(w, c).parts, Enter(w, c, seen));
    }
  }

  lemma {:induction false} SeenGrowsOverParts(w: World, depth: nat, parts: seq<Part>, seen: set<Key>)
    requires EvalParts(w, depth, parts, seen).Some?
    ensures seen <= EvalParts(w, depth, parts, seen).value.seen
    decreases depth, 1 + |parts|
  {
    if parts != [] {
      if parts[0].Visit? {
        SeenGrows(w, depth, parts[0].call, seen);
      }
      SeenGrowsOverParts(w, depth, parts[1..], EvalPart(w, depth, parts[0], seen).value.seen);
    }
  }

  // ---------------------------------------------------------------- soundness

  ghost predicate SoundVerdict(w: World, n: nat, p: Part, v: Verdict) {
    (v == Found ==> HasPart(w, n, p)) && (v == Missing ==> LacksPart(w, n, p))
  }

  lemma ConcludeIsSound(w: World, n: nat, m: Move, verdicts: seq<Verdict>)
    requires !m.Answer? && |verdicts| == |m.parts|
    requires forall i :: 0 <= i < |m.parts| ==> SoundVerdict(w, n, m.parts[i], verdicts[i])
    ensures var v := if m.AllOf? then UnionVerdict(verdicts) else Combine(verdicts);
            (v == Found ==> HasMove(w, n, m)) && (v == Missing ==> LacksMove(w, n, m))
  {
    hide HasPart, LacksPart;
    forall i | 0 <= i < |verdicts| ensures verdicts[i] in verdicts {
    }
    if m.AnyOf? && Combine(verdicts) == Found {
      var i :| 0 <= i < |verdicts| && verdicts[i] == Found;
      assert HasPart(w, n, m.parts[i]);
    }
  }

  /** Soundness on every world, from every visited set: an answer given at a depth has a derivation of that depth. */
  lemma {:induction false} AnswersAreSound(w: World, depth: nat, c: Call, seen: set<Key>)
    requires Eval(w, depth, c, seen).Some?
    ensures Eval(w, depth, c, seen).value.verdict == Found ==> HasCall(w, depth, c)
    ensures Eval(w, depth, c, seen).value.verdict == Missing ==> LacksCall(w, depth, c)
    decreases depth, 0
  {
    MeaningIsOneRound(w, depth, c);
    hide HasCall, LacksCall, HasMove, LacksMove;
    if !Blocked(w, c, seen) {
      var m := Expand(w, c);
      if m.Answer? {
        AnswerMeans(w, depth - 1, m);
      } else {
        PartsAreSound(w, depth - 1, m.parts, Enter(w, c, seen));
        ConcludeIsSound(w, depth - 1, m, EvalParts(w, depth - 1, m.parts, Enter(w, c, seen)).value.verdicts);
      }
    }
  }

  lemma AnswerMeans(w: World, n: nat, m: Move)
    requires m.Answer?
    ensures (HasMove(w, n, m) <==> m.verdict == Found) && (LacksMove(w, n, m) <==> m.verdict == Missing)
  {
  }

  lemma {:induction false} PartsAreSound(w: World, depth: nat, parts: seq<Part>, seen: set<Key>)
    requires EvalParts(w, depth, parts, seen).Some?
    ensures var verdicts := EvalParts(w, depth, parts, seen).value.verdicts;
            |verdicts| == |parts| && forall i :: 0 <= i < |parts| ==> SoundVerdict(w, depth, parts[i], verdicts[i])
    decreases depth, 1 + |parts|
  {
    hide HasCall, LacksCall;
    EvalPartsShape(w, depth, parts, seen);
    if parts != [] {
      if parts[0].Visit? {
        AnswersAreSound(w, depth, parts[0].call, seen);
      }
      PartsAreSound(w, depth, parts[1..], EvalPart(w, depth, parts[0], seen).value.seen);
    }
  }

  // ---------------------------------------------------------------- completeness

  /** A derivation of any depth shows in the verdict. */
  ghost predicate CompleteVerdict(w: World, n: nat, p: Part, v: Verdict) {
    (HasPart(w, n, p) ==> v == Found) && (LacksPart(w, n, p) ==> v == Missing)
  }

  lemma ConcludeIsComplete(w: World, n: nat, m: Move, verdicts: seq<Verdict>)
    requires !m.Answer? && |verdicts| == |m.parts|
    requires forall i :: 0 <= i < |m.parts| ==> CompleteVerdict(w, n, m.parts[i], verdicts[i])
    ensures var v := if m.AllOf? then UnionVerdict(verdicts) else Combine(verdicts);
            (HasMove(w, n, m) ==> v == Found) && (LacksMove(w, n, m) ==> v == Missing)
  {
    hide HasPart, LacksPart;
    forall i | 0 <= i < |verdicts| ensures verdicts[i] in verdicts {
    }
    if m.AllOf? && LacksMove(w, n, m) {
      assert verdicts[0] == Missing;
    }
  }

  /** Completeness: unless the visited set stopped some call, whatever can be derived is answered. */
  lemma {:induction false} UncutAnswersAreComplete(w: World, depth: nat, c: Call, seen: set<Key>, n: nat)
    requires Eval(w, depth, c, seen).Some? && !Eval(w, depth, c, seen).value.cut
    ensures HasCall(w, n, c) ==> Eval(w, depth, c, seen).value.verdict == Found
    ensures LacksCall(w, n, c) ==> Eval(w, depth, c, seen).value.verdict == Missing
    decreases depth, 0
  {
    MeaningIsOneRound(w, n, c);
    hide HasCall, LacksCall, HasMove, LacksMove;
    var m := Expand(w, c);
    if c.steps != [] && n > 0 {
      if m.Answer? {
        AnswerMeans(w, n - 1, m);
      } else {
        UncutPartsAreComplete(w, depth - 1, m.parts, Enter(w, c, seen), n - 1);
        ConcludeIsComplete(w, n - 1, m, EvalParts(w, depth - 1, m.parts, Enter(w, c, seen)).value.verdicts);
      }
    }
  }

  lemma {:induction false} UncutPartsAreComplete(w: World, depth: nat, parts: seq<Part>, seen: set<Key>, n: nat)
    requires EvalParts(w, depth, parts, seen).Some? && !EvalParts(w, depth, parts, seen).value.cut
    ensures var verdicts := EvalParts(w, depth, parts, seen).value.verdicts;
            |verdicts| == |parts| && forall i :: 0 <= i < |parts| ==> CompleteVerdict(w, n, parts[i], verdicts[i])
    decreases depth, 1 + |parts|
  {
    hide HasCall, LacksCall;
    EvalPartsShape(w, depth, parts, seen);
    if parts != [] {
      if parts[0].Visit? {
        UncutAnswersAreComplete(w, depth, parts[0].call, seen, n);
      }
      UncutPartsAreComplete(w, depth, parts[1..], EvalPart(w, depth, parts[0], seen).value.seen, n);
    }
  }

  // ---------------------------------------------------------------- when the visited set stops a call

  /** How often each key is entered when the call is unfolded to a depth without any visited set. */
  function Entries(w: World, depth: nat, c: Call): multiset<Key>
    decreases depth, 0
  {
    if depth == 0 then multiset{}
    else
      (if Guard(w, c).Some? then multiset{Guard(w, c).value} else multiset{})
      + EntriesOfParts(w, depth - 1, PartsOf(Expand(w, c)))
  }

  function EntriesOfParts(w: World, depth: nat, parts: seq<Part>): multiset<Key>
    decreases depth, 1 + |parts|
  {
    if parts == [] then multiset{}
    else
      (if parts[0].Visit? then Entries(w, depth, parts[0].call) else multiset{}) + EntriesOfParts(w, depth, parts[1..])
  }

  /** The unfolding enters some declaration twice with equally many steps to go. */
  ghost predicate EntersTwice(w: World, c: Call) {
    exists depth: nat, k: Key :: Entries(w, depth, c)[k] >= 2
  }

  /** An uncut walk enters every key of the unfolding, at any depth, at most once and none it started with. */
  lemma {:induction false} UncutEntersOnce(w: World, depth: nat, c: Call, seen: set<Key>, n: nat, k: Key)
    requires Eval(w, depth, c, seen).Some? && !Eval(w, depth, c, seen).value.cut
    ensures Entries(w, n, c)[k] <= if k in Eval(w, depth, c, seen).value.seen && k !in seen then 1 else 0
    decreases depth, 0
  {
    hide Expand, Guard;
    if n > 0 {
      SeenGrows(w, depth, c, seen);
      var m := Expand(w, c);
      if !m.Answer? {
        UncutPartsEnterOnce(w, depth - 1, m.parts, Enter(w, c, seen), n - 1, k);
        SeenGrowsOverParts(w, depth - 1, m.parts, Enter(w, c, seen));
      }
    }
  }

  lemma {:induction false} UncutPartsEnterOnce(w: World, depth: nat, parts: seq<Part>, seen: set<Key>, n: nat, k: Key)
    requires EvalParts(w, depth, parts, seen).Some? && !EvalParts(w, depth, parts, seen).value.cut
    ensures EntriesOfParts(w, n, parts)[k]
         <= if k in EvalParts(w, depth, parts, seen).value.seen && k !in seen then 1 else 0
    decreases depth, 1 + |parts|
  {
    if parts != [] {
      var between := EvalPart(w, depth, parts[0], seen).value.seen;
      if parts[0].Visit? {
        UncutEntersOnce(w, depth, parts[0].call, seen, n, k);
        SeenGrows(w, depth, parts[0].call, seen);
      }
      UncutPartsEnterOnce(w, depth, parts[1..], between, n, k);
      SeenGrowsOverParts(w, depth, parts[1..], between);
    }
  }

  /** What a walk adds to the visited set, the unfolding enters. */
  lemma {:induction false} AddedKeysAreEntered(w: World, depth: nat, c: Call, seen: set<Key>, k: Key)
    requires Eval(w, depth, c, seen).Some? && k in Eval(w, depth, c, seen).value.seen && k !in seen
    ensures Entries(w, depth, c)[k] >= 1
    decreases depth, 0
  {
    if !(Guard(w, c) == Some(k)) && !Expand(w, c).Answer? {
      AddedKeysAreEnteredByParts(w, depth - 1, Expand(w, c).parts, Enter(w, c, seen), k);
    }
  }

  lemma {:induction false} AddedKeysAreEnteredByParts(w: World, depth: nat, parts: seq<Part>, seen: set<Key>, k: Key)
    requires EvalParts(w, depth, parts, seen).Some? && k in EvalParts(w, depth, parts, seen).value.seen && k !in seen
    ensures EntriesOfParts(w, depth, parts)[k] >= 1
    decreases depth, 1 + |parts|
  {
    var between := EvalPart(w, depth, parts[0], seen).value.seen;
    if k in between {
      AddedKeysAreEntered(w, depth, parts[0].call, seen, k);
    } else {
      AddedKeysAreEnteredByParts(w, depth, parts[1..], between, k);
    }
  }

  /** A cut walk meets a key the unfolding enters twice, or once and the walk started with. */
  lemma {:induction false} CutMeetsKeyAgain(w: World, depth: nat, c: Call, seen: set<Key>) returns (k: Key)
    requires Eval(w, depth, c, seen).Some? && Eval(w, depth, c, seen).value.cut
    ensures Entries(w, depth, c)[k] + (if k in seen then 1 else 0) >= 2
    decreases depth, 0
  {
    if Blocked(w, c, seen) {
      k := Guard(w, c).value;
    } else {
      k := CutPartsMeetKeyAgain(w, depth - 1, Expand(w, c).parts, Enter(w, c, seen));
    }
  }

  lemma {:induction false} CutPartsMeetKeyAgain(w: World, depth: nat, parts: seq<Part>, seen: set<Key>) returns (k: Key)
    requires EvalParts(w, depth, parts, seen).Some? && EvalParts(w, depth, parts, seen).value.cut
    ensures EntriesOfParts(w, depth, parts)[k] + (if k in seen then 1 else 0) >= 2
    decreases depth, 1 + |parts|
  {
    var first := EvalPart(w, depth, parts[0], seen).value;
    if first.cut {
      k := CutMeetsKeyAgain(w, depth, parts[0].call, seen);
    } else {
      k := CutPartsMeetKeyAgain(w, depth, parts[1..], first.seen);
      if k in first.seen && k !in seen {
        AddedKeysAreEntered(w, depth, parts[0].call, seen, k);
      }
    }
  }

  /** The visited set stops some call if and only if the unfolding without it enters some key twice. */
  lemma CutIffEntersTwice(w: World, depth: nat, c: Call)
    requires Eval(w, depth, c, {}).Some?
    ensures Eval(w, depth, c, {}).value.cut <==> EntersTwice(w, c)
  {
    if Eval(w, depth, c, {}).value.cut {
      var k := CutMeetsKeyAgain(w, depth, c, {});
      assert Entries(w, depth, c)[k] >= 2;
    } else {
      forall n: nat, k: Key ensures Entries(w, n, c)[k] < 2 {
        UncutEntersOnce(w, depth, c, {}, n, k);
      }
    }
  }

  // ---------------------------------------------------------------- when a missing path is reported

  /** No branch of a lacked move is found, and some branch is unknown exactly when one was cut. */
  lemma LackedConclusion(m: Move, verdicts: seq<Verdict>, cut: bool)
    requires !m.Answer? && |verdicts| == |m.parts| && (m.AllOf? ==> m.parts != [])
    requires Found !in verdicts && (Unknown in verdicts <==> cut)
    ensures (if m.AllOf? then UnionVerdict(verdicts) else Combine(verdicts)) == if cut then Unknown else Missing
  {
    if m.AllOf? {
      assert verdicts[0] in verdicts;
    }
  }

  /**
   Whatever has been visited: a path that is definitely lacked is answered missing, or unknown when some call was
   cut.
   */
  lemma {:induction false} LackedVerdict(w: World, depth: nat, c: Call, seen: set<Key>, n: nat)
    requires Eval(w, depth, c, seen).Some? && LacksCall(w, n, c)
    ensures var o := Eval(w, depth, c, seen).value; o.verdict == if o.cut then Unknown else Missing
    decreases depth, 0
  {
    MeaningIsOneRound(w, n, c);
    hide LacksCall, HasCall;
    var m := Expand(w, c);
    if !Blocked(w, c, seen) && !m.Answer? {
      var o := EvalParts(w, depth - 1, m.parts, Enter(w, c, seen)).value;
      LackedParts(w, depth - 1, m.parts, Enter(w, c, seen), n - 1);
      LackedConclusion(m, o.verdicts, o.cut);
    }
  }

  lemma {:induction false} LackedParts(w: World, depth: nat, parts: seq<Part>, seen: set<Key>, n: nat)
    requires EvalParts(w, depth, parts, seen).Some?
    requires forall i :: 0 <= i < |parts| ==> LacksPart(w, n, parts[i])
    ensures var o := EvalParts(w, depth, parts, seen).value;
            |o.verdicts| == |parts| && Found !in o.verdicts && (Unknown in o.verdicts <==> o.cut)
    decreases depth, 1 + |parts|
  {
    hide LacksCall;
    if parts != [] {
      assert LacksPart(w, n, parts[0]);
      LackedVerdict(w, depth, parts[0].call, seen, n);
      LackedParts(w, depth, parts[1..], EvalPart(w, depth, parts[0], seen).value.seen, n);
    }
  }

  /** The exact condition: a definitely missing path is reported missing if and only if no key is entered twice. */
  lemma MissingReportedIff(w: World, depth: nat, c: Call)
    requires Eval(w, depth, c, {}).Some? && exists n: nat :: LacksCall(w, n, c)
    ensures Eval(w, depth, c, {}).value.verdict == Missing <==> !EntersTwice(w, c)
  {
    var n: nat :| LacksCall(w, n, c);
    LackedVerdict(w, depth, c, {}, n);
    CutIffEntersTwice(w, depth, c);
  }

  // ---------------------------------------------------------------- the walk itself

  lemma CombineOne(v: Verdict)
    ensures Combine([v]) == v
  {
    assert v in [v];
  }

  /** The outcome of a move, once the call that makes it has been entered. */
  ghost function EvalMove(w: World, depth: nat, m: Move, seen: set<Key>): Option<Outcome> {
    if m.Answer? then Some(Outcome(m.verdict, seen, false))
    else
      var o := EvalParts(w, depth, m.parts, seen);
      if o.Some? then Some(Conclude(m, o.value)) else None
  }

  lemma FollowedOutcome(w: World, depth: nat, d: Call, seen: set<Key>)
    ensures EvalMove(w, depth, Follow(d), seen) == Eval(w, depth, d, seen)
  {
    var parts := Follow(d).parts;
    assert parts[0] == Visit(d) && parts[1..] == [];
    var o := Eval(w, depth, d, seen);
    assert EvalPart(w, depth, parts[0], seen) == o;
    if o.Some? {
      CombineOne(o.value.verdict);
      assert EvalParts(w, depth, [], o.value.seen) == Some(Outcomes([], o.value.seen, false));
      assert EvalParts(w, depth, parts, seen) == Some(Outcomes([o.value.verdict] + [], o.value.seen, o.value.cut));
      assert [o.value.verdict] + [] == [o.value.verdict];
    }
  }

  /** An unblocked call has the outcome of its move. */
  lemma EnteredOutcome(w: World, depth: nat, c: Call, seen: set<Key>)
    requires Eval(w, depth, c, seen).Some? && !Blocked(w, c, seen)
    ensures depth > 0 && Eval(w, depth, c, seen) == EvalMove(w, depth - 1, Expand(w, c), Enter(w, c, seen))
  {
  }

  /** How far a loop over parts has come: the verdicts so far, and what is left to do from here. */
  ghost predicate PartWay(
      w: World, depth: nat, parts: seq<Part>, start: set<Key>, i: nat, verdicts: seq<Verdict>, seen: set<Key>)
    requires i <= |parts|
  {
    var whole, rest := EvalParts(w, depth, parts, start), EvalParts(w, depth, parts[i..], seen);
    && whole.Some? && rest.Some? && |verdicts| == i
    && whole.value.verdicts == verdicts + rest.value.verdicts
    && whole.value.seen == rest.value.seen
  }

  lemma AtTheStart(w: World, depth: nat, parts: seq<Part>, seen: set<Key>)
    requires EvalParts(w, depth, parts, seen).Some?
    ensures PartWay(w, depth, parts, seen, 0, [], seen)
  {
    assert parts[0..] == parts;
  }

  lemma OneFurther(
      w: World, depth: nat, parts: seq<Part>, start: set<Key>, i: nat, verdicts: seq<Verdict>, seen: set<Key>)
    requires i < |parts| && PartWay(w, depth, parts, start, i, verdicts, seen)
    ensures var o := EvalPart(w, depth, parts[i], seen);
            o.Some? && PartWay(w, depth, parts, start, i + 1, verdicts + [o.value.verdict], o.value.seen)
  {
    assert parts[i..][1..] == parts[i + 1..];
  }

  lemma AtTheEnd(w: World, depth: nat, parts: seq<Part>, start: set<Key>, verdicts: seq<Verdict>, seen: set<Key>)
    requires PartWay(w, depth, parts, start, |parts|, verdicts, seen)
    ensures var o := EvalParts(w, depth, parts, start); o.Some? && o.value.verdicts == verdicts && o.value.seen == seen
  {
    assert parts[|parts|..] == [];
  }

  /** The walk left this verdict and this visited set. */
  ghost predicate Left(o: Option<Outcome>, v: Verdict, seen: set<Key>) {
    o.Some? && o.value.verdict == v && o.value.seen == seen
  }

  /** Every method asks only that the walk of its call ends, and leaves what `Eval` says. */
  class Walk {
    const w: World
    var seen: set<Key>

    constructor (w: World)
      ensures this.w == w && seen == {}
    {
      this.w := w;
      seen := {};
    }

    /** The first property of that name decides; None when there is none and the caller consults the heritage. */
    method IntoMembers(file: string, members: seq<TypeElement>, steps: seq<Step>, ghost depth: nat)
      returns (v: Option<Verdict>)
      requires steps != [] && steps[0].Member?
      requires forall i: nat :: FirstNamed(members, steps[0].name, i) ==>
                 EvalMove(w, depth, MemberMove(file, members[i], steps), seen).Some?
      modifies this
      ensures v.None? <==> forall m :: m in members && m.PropertySignature? ==> m.name != steps[0].name
      ensures v.None? ==> seen == old(seen)
      ensures v.Some? ==>
                exists i: nat :: FirstNamed(members, steps[0].name, i)
                  && Left(EvalMove(w, depth, MemberMove(file, members[i], steps), old(seen)), v.value, seen)
      decreases depth, 2
    {
      for i := 0 to |members|
        invariant seen == old(seen) && forall j :: 0 <= j < i ==> !NamedProperty(members[j], steps[0].name)
      {
        var m := members[i];
        if !m.PropertySignature? || m.name != steps[0].name {
          continue;
        }
        assert FirstNamed(members, steps[0].name, i);
        if |steps| == 1 {
          return Some(Found);
        }
        if m.ty.None? {
          return Some(Unknown);
        }
        FollowedOutcome(w, depth, TypeCall(file, m.ty.value, steps[1..]), seen);
        var inner := LookupType(file, m.ty.value, steps[1..], depth);
        return Some(inner);
      }
      return None;
    }

    method LookupParts(file: string, types: seq<TypeNode>, steps: seq<Step>, ghost depth: nat)
      returns (results: seq<Verdict>)
      requires EvalParts(w, depth, TypeParts(file, types, steps), seen).Some?
      modifies this
      ensures var o := EvalParts(w, depth, TypeParts(file, types, steps), old(seen)).value;
              results == o.verdicts && seen == o.seen
      decreases depth, 2
    {
      hide Eval, EvalParts, PartWay;
      ghost var parts := TypeParts(file, types, steps);
      results := [];
      AtTheStart(w, depth, parts, seen);
      for i := 0 to |types|
        invariant PartWay(w, depth, parts, old(seen), i, results, seen)
      {
        OneFurther(w, depth, parts, old(seen), i, results, seen);
        var v := LookupType(file, types[i], steps, depth);
        results := results + [v];
      }
      AtTheEnd(w, depth, parts, old(seen), results, seen);
    }

    method LookupType(file: string, t: TypeNode, steps: seq<Step>, ghost depth: nat)
      returns (v: Verdict)
      requires Eval(w, depth, TypeCall(file, t, steps), seen).Some?
      modifies this
      ensures Left(Eval(w, depth, TypeCall(file, t, steps), old(seen)), v, seen)
      decreases depth, 1
    {
      EnteredOutcome(w, depth, TypeCall(file, t, steps), seen);
      hide Eval, EvalParts;
      if |steps| == 0 {
        return Found;
      }
      match t
      case LiteralType(members) =>
        if !steps[0].Member? {
          return Unknown;
        }
        DirectMemberIsTheFirst(members, steps[0].name);
        var direct := IntoMembers(file, members, steps, depth - 1);
        v := if direct.Some? then direct.value else Missing;
      case ParenthesizedType(inner) =>
        FollowedOutcome(w, depth - 1, TypeCall(file, inner, steps), seen);
        v := LookupType(file, inner, steps, depth - 1);
      case IntersectionType(parts) =>
        var results := LookupParts(file, parts, steps, depth - 1);
        v := Combine(results);
      case UnionType(parts) =>
        var results := LookupParts(file, parts, steps, depth - 1);
        v := UnionVerdict(results);
      case ArrayType(element) =>
        if !steps[0].ArrayHop? {
          return Unknown;
        }
        FollowedOutcome(w, depth - 1, TypeCall(file, element, steps[1..]), seen);
        v := LookupType(file, element, steps[1..], depth - 1);
      case OperatorType(inner) =>
        FollowedOutcome(w, depth - 1, TypeCall(file, inner, steps), seen);
        v := LookupType(file, inner, steps, depth - 1);
      case IndexedAccessType(o, key) =>
        if key.None? {
          return Unknown;
        }
        FollowedOutcome(w, depth - 1, TypeCall(file, o, [Member(key.value)] + steps), seen);
        v := LookupType(file, o, [Member(key.value)] + steps, depth - 1);
      case ReferenceType(_, _, _) =>
        v := LookupReference(file, t, steps, depth - 1);
      case OtherType =>
        v := Unknown;
    }

    method LookupReference(file: string, t: TypeNode, steps: seq<Step>, ghost depth: nat)
      returns (v: Verdict)
      requires t.ReferenceType? && steps != [] && EvalMove(w, depth, ExpandReference(w, file, t, steps), seen).Some?
      modifies this
      ensures Left(EvalMove(w, depth, ExpandReference(w, file, t, steps), old(seen)), v, seen)
      decreases depth, 2
    {
      hide Eval, EvalParts;
      if PassesThrough(t.head) && t.args != [] {
        FollowedOutcome(w, depth, TypeCall(file, t.args[0], steps), seen);
        v := LookupType(file, t.args[0], steps, depth);
        return;
      }
      if NamesArray(t.head) && t.args != [] {
        if !steps[0].ArrayHop? {
          return Unknown;
        }
        FollowedOutcome(w, depth, TypeCall(file, t.args[0], steps[1..]), seen);
        v := LookupType(file, t.args[0], steps[1..], depth);
        return;
      }
      if t.qualified {
        return Unknown;
      }
      var resolved := DeclForTypeName(w, file, t.head);
      if resolved.None? {
        return Unknown;
      }
      FollowedOutcome(w, depth, DeclCall(resolved.value, steps), seen);
      v := LookupDecl(resolved.value, steps, depth);
    }

    method LookupHeritage(file: string, bases: seq<Heritage>, steps: seq<Step>, ghost depth: nat)
      returns (results: seq<Verdict>)
      requires EvalParts(w, depth, BaseParts(w, file, bases, steps), seen).Some?
      modifies this
      ensures var o := EvalParts(w, depth, BaseParts(w, file, bases, steps), old(seen)).value;
              results == o.verdicts && seen == o.seen
      decreases depth, 2
    {
      hide Eval, EvalParts, PartWay;
      ghost var parts := BaseParts(w, file, bases, steps);
      results := [];
      AtTheStart(w, depth, parts, seen);
      for i := 0 to |bases|
        invariant PartWay(w, depth, parts, old(seen), i, results, seen)
      {
        OneFurther(w, depth, parts, old(seen), i, results, seen);
        var resolved := BaseDecl(w, file, bases[i]);
        var v := Unknown;
        if resolved.Some? {
          v := LookupDecl(resolved.value, steps, depth);
        }
        results := results + [v];
      }
      AtTheEnd(w, depth, parts, old(seen), results, seen);
    }

    method LookupDecl(id: DeclId, steps: seq<Step>, ghost depth: nat)
      returns (v: Verdict)
      requires id in w.decls && Eval(w, depth, DeclCall(id, steps), seen).Some?
      modifies this
      ensures Left(Eval(w, depth, DeclCall(id, steps), old(seen)), v, seen)
      decreases depth, 1
    {
      if |steps| == 0 {
        return Found;
      }
      if w.decls[id].EnumDeclaration? {
        return Unknown;
      }
      var key := Key(id, |steps|);
      if key in seen {
        return Unknown;
      }
      EnteredOutcome(w, depth, DeclCall(id, steps), seen);
      hide Eval, EvalParts;
      seen := seen + {key};
      match w.decls[id]
      case InterfaceDeclaration(members, bases) =>
        if !steps[0].Member? {
          return Unknown;
        }
        DirectMemberIsTheFirst(members, steps[0].name);
        var direct := IntoMembers(id.file, members, steps, depth - 1);
        if direct.Some? {
          return direct.value;
        }
        var results := LookupHeritage(id.file, bases, steps, depth - 1);
        v := if |bases| > 0 then Combine(results) else Missing;
      case AliasDeclaration(t) =>
        FollowedOutcome(w, depth - 1, TypeCall(id.file, t, steps), seen);
        v := LookupType(id.file, t, steps, depth - 1);
    }
  }
}

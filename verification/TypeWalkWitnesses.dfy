/**
 Two worlds that limit what can be promised of the walk through declared types
 (docker/support/scripts/gen-config-catalog.ts): one where a repeated base hides a missing key,
 and one where the order of two branches decides whether the walk ends.
 */
module TypeWalkWitnesses {
  import opened Wrappers
  import opened TypeMeaning
  import opened TypePathLookup
  import opened TypeWalkEnding
  import opened TypeRanking

  // ---------------------------------------------------------------- a missing key that is not reported

  /** `interface X {}` and `interface C extends X, X`. */
  function RepeatedBase(): World {
    World(
      map[DeclId("f", 0) := InterfaceDeclaration([], [NamedBase("X"), NamedBase("X")]),
          DeclId("f", 1) := InterfaceDeclaration([], [])],
      map[("f", "X") := DeclId("f", 1)])
  }

  /** The key is definitely missing and the empty base is entered twice, so whatever the depth the answer is unknown. */
  lemma RepeatedBaseHidesMissing(name: string)
    ensures var w, c := RepeatedBase(), DeclCall(DeclId("f", 0), [Member(name)]);
            && LacksCall(w, 2, c) && EntersTwice(w, c) && Ends(w, c, {})
            && forall depth: nat :: Eval(w, depth, c, {}).Some? ==> Eval(w, depth, c, {}).value.verdict == Unknown
  {
    var w, steps := RepeatedBase(), [Member(name)];
    var c := DeclCall(DeclId("f", 0), steps);
    TwoBases(w, steps);
    UnindexedWalksEnd(w, DeclId("f", 0), steps, {});
    forall depth: nat | Eval(w, depth, c, {}).Some? ensures Eval(w, depth, c, {}).value.verdict == Unknown {
      LackedVerdict(w, depth, c, {}, 2);
      MissingReportedIff(w, depth, c);
    }
  }

  lemma TwoBases(w: World, steps: seq<Step>)
    requires w == RepeatedBase() && |steps| == 1 && steps[0].Member?
    ensures LacksCall(w, 2, DeclCall(DeclId("f", 0), steps)) && EntersTwice(w, DeclCall(DeclId("f", 0), steps))
  {
    var c, x := DeclCall(DeclId("f", 0), steps), DeclCall(DeclId("f", 1), steps);
    TwoBasesExpand(w, steps);
    hide Expand, RepeatedBase, HasCall, LacksCall;
    MeaningIsOneRound(w, 1, x);
    MeaningIsOneRound(w, 2, c);
    EnteredByBoth(w, x, Key(DeclId("f", 1), 1));
    assert Entries(w, 2, c)[Key(DeclId("f", 1), 1)] >= 2;
  }

  lemma TwoBasesExpand(w: World, steps: seq<Step>)
    requires w == RepeatedBase() && |steps| == 1 && steps[0].Member?
    ensures var c, x := DeclCall(DeclId("f", 0), steps), DeclCall(DeclId("f", 1), steps);
            && Expand(w, c) == AnyOf([Visit(x), Visit(x)]) && Expand(w, x) == AnyOf([])
            && Guard(w, x) == Some(Key(DeclId("f", 1), 1))
  {
    assert DeclForTypeName(w, "f", "X") == Some(DeclId("f", 1));
    var x := DeclCall(DeclId("f", 1), steps);
    assert BaseParts(w, "f", [NamedBase("X"), NamedBase("X")], steps) == [Visit(x), Visit(x)];
    assert BaseParts(w, "f", [], steps) == [];
  }

  lemma EnteredByBoth(w: World, x: Call, key: Key)
    requires Guard(w, x) == Some(key)
    ensures EntriesOfParts(w, 1, [Visit(x), Visit(x)])[key] >= 2
  {
    var parts := [Visit(x), Visit(x)];
    assert Entries(w, 1, x)[key] >= 1;
    assert parts[1..] == [Visit(x)];
    assert EntriesOfParts(w, 1, parts[1..])[key] >= 1;
    hide Entries;
    assert EntriesOfParts(w, 1, parts) == Entries(w, 1, x) + EntriesOfParts(w, 1, parts[1..]);
  }

  // ---------------------------------------------------------------- the order of the branches decides

  /** `interface X { a: …; b: D }`, `type D = D['q']`, and `type U = X['…'] | X['…']` over the two keys given. */
  function Tangle(first: string, second: string): World {
    World(
      map[DeclId("f", 0) := AliasDeclaration(UnionType([Index(first), Index(second)])),
          DeclId("f", 1) := InterfaceDeclaration(
            [PropertySignature("a", Some(OtherType)), PropertySignature("b", Some(ReferenceType("D", false, [])))], []),
          DeclId("f", 2) := AliasDeclaration(IndexedAccessType(ReferenceType("D", false, []), Some("q")))],
      map[("f", "X") := DeclId("f", 1), ("f", "D") := DeclId("f", 2)])
  }

  function Index(key: string): TypeNode {
    IndexedAccessType(ReferenceType("X", false, []), Some(key))
  }

  function Inside(key: string, name: string): Call {
    DeclCall(DeclId("f", 1), [Member(key), Member(name)])
  }

  function ReferenceToD(name: string): Call {
    TypeCall("f", ReferenceType("D", false, []), [Member(name)])
  }

  function EnterD(name: string): Call {
    DeclCall(DeclId("f", 2), [Member(name)])
  }

  /** An index into X is answered by entering X with that key before the path. */
  lemma IndexEntersX(w: World, depth: nat, key: string, name: string, seen: set<Key>)
    requires w == Tangle("a", "b") || w == Tangle("b", "a")
    ensures Eval(w, depth + 2, TypeCall("f", Index(key), [Member(name)]), seen)
        == Eval(w, depth, Inside(key, name), seen)
    ensures Calls(w, TypeCall("f", Index(key), [Member(name)]),
        TypeCall("f", Index(key).object_, [Member(key), Member(name)]))
    ensures Calls(w, TypeCall("f", Index(key).object_, [Member(key), Member(name)]), Inside(key, name))
  {
    var c := TypeCall("f", Index(key), [Member(name)]);
    var d := TypeCall("f", Index(key).object_, [Member(key), Member(name)]);
    assert [Member(key)] + [Member(name)] == [Member(key), Member(name)];
    assert DeclForTypeName(w, "f", "X") == Some(DeclId("f", 1));
    MoveOfFollow(w, depth + 2, c, d, seen);
    MoveOfFollow(w, depth + 1, d, Inside(key, name), seen);
    assert PartsOf(Expand(w, c))[0] == Visit(d) && PartsOf(Expand(w, d))[0] == Visit(Inside(key, name));
  }

  /** The member a is out of sight: the walk stops there, and X counts as visited with two steps to go. */
  lemma AtA(w: World, name: string, seen: set<Key>)
    requires (w == Tangle("a", "b") || w == Tangle("b", "a")) && Key(DeclId("f", 1), 2) !in seen
    ensures Eval(w, 2, Inside("a", name), seen) == Some(Outcome(Unknown, seen + {Key(DeclId("f", 1), 2)}, false))
  {
    var c, d := Inside("a", name), TypeCall("f", OtherType, [Member(name)]);
    assert c.steps[1..] == [Member(name)];
    assert DirectMember(w.decls[DeclId("f", 1)].members, "a") == Some(PropertySignature("a", Some(OtherType)));
    assert Expand(w, c) == Follow(d);
    MoveOfFollow(w, 2, c, d, seen);
  }

  /** The member b leads to D, which is never answered. */
  lemma AtB(w: World, name: string, seen: set<Key>, depth: nat)
    requires w == Tangle("a", "b") || w == Tangle("b", "a")
    requires Key(DeclId("f", 1), 2) !in seen && forall k :: k in seen ==> k.id != DeclId("f", 2)
    ensures Eval(w, depth, Inside("b", name), seen).None?
  {
    var c, r, d := Inside("b", name), ReferenceToD(name), EnterD(name);
    var entered := seen + {Key(DeclId("f", 1), 2)};
    BLeadsToD(w, name);
    if depth > 0 {
      MoveOfFollow(w, depth, c, r, seen);
    }
    if depth > 1 {
      MoveOfFollow(w, depth - 1, r, d, entered);
      SelfIndexingNeverAnswers(w, DeclId("f", 2), "D", "q", [Member(name)], entered, depth - 2);
    }
  }

  lemma BLeadsToD(w: World, name: string)
    requires w == Tangle("a", "b") || w == Tangle("b", "a")
    ensures var r, d := ReferenceToD(name), EnterD(name);
            && Expand(w, Inside("b", name)) == Follow(r) && Expand(w, r) == Follow(d)
            && Calls(w, Inside("b", name), r) && Calls(w, r, d)
    ensures SelfIndexing(w, DeclId("f", 2), "D", "q")
  {
    var c, r, d := Inside("b", name), ReferenceToD(name), EnterD(name);
    var members := w.decls[DeclId("f", 1)].members;
    assert members[1..][0] == members[1];
    assert DirectMember(members[1..], "b") == Some(members[1]);
    assert DirectMember(members, "b") == Some(members[1]);
    assert c.steps[1..] == [Member(name)];
    assert DeclForTypeName(w, "f", "D") == Some(DeclId("f", 2));
    assert PartsOf(Expand(w, c))[0] == Visit(r) && PartsOf(Expand(w, r))[0] == Visit(d);
  }

  function Branches(first: string, second: string, name: string): seq<Part> {
    [Visit(TypeCall("f", Index(first), [Member(name)])), Visit(TypeCall("f", Index(second), [Member(name)]))]
  }

  lemma UnionOfTwo(w: World, first: string, second: string, name: string, seen: set<Key>, depth: nat)
    requires w == Tangle(first, second) && Key(DeclId("f", 0), 1) !in seen && depth > 0
    ensures var u := TypeCall("f", w.decls[DeclId("f", 0)].ty, [Member(name)]);
            && Expand(w, DeclCall(DeclId("f", 0), [Member(name)])) == Follow(u)
            && Expand(w, u) == AllOf(Branches(first, second, name))
            && Eval(w, depth, DeclCall(DeclId("f", 0), [Member(name)]), seen)
               == Eval(w, depth - 1, u, seen + {Key(DeclId("f", 0), 1)})
  {
    var u := TypeCall("f", w.decls[DeclId("f", 0)].ty, [Member(name)]);
    assert TypeParts("f", [Index(first), Index(second)], [Member(name)]) == Branches(first, second, name);
    MoveOfFollow(w, depth, DeclCall(DeclId("f", 0), [Member(name)]), u, seen);
  }

  /** With X['a'] first, X['b'] is cut off at the visited X: the walk ends. */
  lemma EndsWithAFirst(name: string)
    ensures Ends(Tangle("a", "b"), DeclCall(DeclId("f", 0), [Member(name)]), {})
  {
    var w, top := Tangle("a", "b"), Key(DeclId("f", 0), 1);
    var u := TypeCall("f", w.decls[DeclId("f", 0)].ty, [Member(name)]);
    UnionOfTwo(w, "a", "b", name, {}, 6);
    assert {} + {top} == {top};
    BothBranchesAnswer(w, name, {top});
    hide Index, Tangle;
    assert Eval(w, 5, u, {top}).Some?;
  }

  lemma BothBranchesAnswer(w: World, name: string, seen: set<Key>)
    requires w == Tangle("a", "b") && Key(DeclId("f", 1), 2) !in seen
    ensures EvalParts(w, 4, Branches("a", "b", name), seen).Some?
  {
    var parts := Branches("a", "b", name);
    var between := seen + {Key(DeclId("f", 1), 2)};
    IndexEntersX(w, 2, "a", name, seen);
    AtA(w, name, seen);
    IndexEntersX(w, 2, "b", name, between);
    assert Eval(w, 2, Inside("b", name), between) == Some(Outcome(Unknown, between, true));
    hide Index, Tangle, Inside, Eval;
    assert parts[1..][1..] == [];
    assert EvalParts(w, 4, [], between).Some?;
    assert EvalParts(w, 4, parts[1..], between).Some?;
  }

  lemma BranchFails(w: World, depth: nat, name: string, seen: set<Key>)
    requires w == Tangle("b", "a") && seen == {Key(DeclId("f", 0), 1)}
    ensures Eval(w, depth, TypeCall("f", Index("b"), [Member(name)]), seen).None?
  {
    var c := TypeCall("f", Index("b"), [Member(name)]);
    if depth >= 2 {
      IndexEntersX(w, depth - 2, "b", name, seen);
      AtB(w, name, seen, depth - 2);
    } else if Eval(w, depth, c, seen).Some? {
      MoreDepth(w, depth, 2, c, seen);
      IndexEntersX(w, 0, "b", name, seen);
    }
  }

  /** With X['b'] first it does not end. */
  lemma DoesNotEndWithBFirst(name: string)
    ensures !Ends(Tangle("b", "a"), DeclCall(DeclId("f", 0), [Member(name)]), {})
  {
    var w, top := Tangle("b", "a"), Key(DeclId("f", 0), 1);
    var parts := Branches("b", "a", name);
    forall depth: nat ensures Eval(w, depth, DeclCall(DeclId("f", 0), [Member(name)]), {}).None? {
      if depth > 1 {
        UnionOfTwo(w, "b", "a", name, {}, depth);
        assert {} + {top} == {top};
        BranchFails(w, depth - 2, name, {top});
        assert EvalParts(w, depth - 2, parts, {top}).None?;
      } else if depth == 1 {
        UnionOfTwo(w, "b", "a", name, {}, 1);
      }
    }
  }

  lemma ReachedKeysAreFinite(w: World, c: Call, p: seq<Call>)
    requires FinitelyManyKeys(w, c) && ChainFrom(w, c, p)
    ensures FinitelyManyKeys(w, Last(p))
  {
    var keys :| KeysWithin(w, c, keys);
    forall q | ChainFrom(w, Last(p), q) && Guard(w, Last(q)).Some? ensures Guard(w, Last(q)).value in keys {
      assert Last(p + q[1..]) == Last(q);
    }
    assert KeysWithin(w, Last(p), keys);
  }

  lemma InfinitelyManyKeys(w: World, first: string, second: string, name: string)
    requires w == Tangle(first, second) && {first, second} == {"a", "b"}
    ensures !FinitelyManyKeys(w, DeclCall(DeclId("f", 0), [Member(name)]))
  {
    var start, u := DeclCall(DeclId("f", 0), [Member(name)]), TypeCall("f", w.decls[DeclId("f", 0)].ty, [Member(name)]);
    var c, i := TypeCall("f", Index("b"), [Member(name)]),
        TypeCall("f", Index("b").object_, [Member("b"), Member(name)]);
    var r, d := ReferenceToD(name), EnterD(name);
    UnionOfTwo(w, first, second, name, {}, 1);
    IndexEntersX(w, 0, "b", name, {});
    BLeadsToD(w, name);
    assert PartsOf(Expand(w, start))[0] == Visit(u);
    assert PartsOf(Expand(w, u))[if first == "b" then 0 else 1] == Visit(c);
    var p := [start, u, c, i, Inside("b", name), r, d];
    assert ChainFrom(w, start, p);
    if FinitelyManyKeys(w, start) {
      ReachedKeysAreFinite(w, start, p);
      SelfIndexingDoesNotEnd(w, DeclId("f", 2), "D", "q", [Member(name)]);
    }
  }

  /**
   Two unions of the same branches: infinitely many keys are reachable in both, and the walk ends
   in one order and not in the other.  So once different step lists of one length meet at a
   declaration, no condition that ignores the order of the branches decides whether it ends.
   */
  lemma BranchOrderDecides(name: string)
    ensures var c := DeclCall(DeclId("f", 0), [Member(name)]);
            && !FinitelyManyKeys(Tangle("a", "b"), c) && !FinitelyManyKeys(Tangle("b", "a"), c)
            && Ends(Tangle("a", "b"), c, {}) && !Ends(Tangle("b", "a"), c, {})
            && !CollisionFree(Tangle("a", "b"), c)
  {
    InfinitelyManyKeys(Tangle("a", "b"), "a", "b", name);
    InfinitelyManyKeys(Tangle("b", "a"), "b", "a", name);
    EndsWithAFirst(name);
    DoesNotEndWithBFirst(name);
    if CollisionFree(Tangle("a", "b"), DeclCall(DeclId("f", 0), [Member(name)])) {
      EndsIffFinitelyManyKeys(Tangle("a", "b"), DeclCall(DeclId("f", 0), [Member(name)]));
    }
  }
}

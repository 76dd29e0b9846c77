/**
 Worlds on which the walk through declared types always ends, and worlds that show where the
 conditions on it come from (docker/support/scripts/gen-config-catalog.ts).

 A ranking is a certificate a caller can check declaration by declaration: a property or an
 array element consumes a step and earns credit, a string index lengthens the path and costs
 credit, and a reference must be able to afford the rank of its declaration.
 */
module TypeRanking {
  import opened Wrappers
  import opened TypeMeaning
  import opened TypePathLookup
  import opened TypeWalkEnding

  type Ranking = map<DeclId, nat>

  ghost predicate CanAfford(w: World, rank: Ranking, d: Option<DeclId>, credit: int) {
    d.Some? ==> d.value in rank && rank[d.value] <= credit
  }

  ghost predicate Fits(w: World, rank: Ranking, file: string, t: TypeNode, credit: int) {
    match t
    case LiteralType(members) =>
      forall m :: m in members && m.PropertySignature? && m.ty.Some? ==> Fits(w, rank, file, m.ty.value, credit + 1)
    case ParenthesizedType(inner) => Fits(w, rank, file, inner, credit)
    case IntersectionType(parts) => forall p :: p in parts ==> Fits(w, rank, file, p, credit)
    case UnionType(parts) => forall p :: p in parts ==> Fits(w, rank, file, p, credit)
    case ArrayType(element) => Fits(w, rank, file, element, credit + 1)
    case OperatorType(inner) => Fits(w, rank, file, inner, credit)
    case IndexedAccessType(o, key) => key.Some? ==> Fits(w, rank, file, o, credit - 1)
    case ReferenceType(head, qualified, args) =>
      if PassesThrough(head) && args != [] then Fits(w, rank, file, args[0], credit)
      else if NamesArray(head) && args != [] then Fits(w, rank, file, args[0], credit + 1)
      else qualified || CanAfford(w, rank, DeclForTypeName(w, file, head), credit)
    case OtherType => true
  }

  ghost predicate DeclFits(w: World, rank: Ranking, id: DeclId)
    requires id in w.decls && id in rank
  {
    match w.decls[id]
    case InterfaceDeclaration(members, bases) =>
      && Fits(w, rank, id.file, LiteralType(members), rank[id])
      && forall b :: b in bases ==> CanAfford(w, rank, BaseDecl(w, id.file, b), rank[id])
    case AliasDeclaration(t) => Fits(w, rank, id.file, t, rank[id])
    case EnumDeclaration => true
  }

  ghost predicate Ranked(w: World, rank: Ranking) {
    rank.Keys == w.decls.Keys && forall id :: id in w.decls ==> DeclFits(w, rank, id)
  }

  /** The steps to go and the credit left never exceed the cap together. */
  ghost predicate Within(w: World, rank: Ranking, cap: int, c: Call) {
    match c
    case TypeCall(file, t, steps) => exists credit: int :: Fits(w, rank, file, t, credit) && |steps| + credit <= cap
    case DeclCall(id, steps) => id in rank && |steps| + rank[id] <= cap
  }

  lemma MemberFits(w: World, rank: Ranking, file: string, members: seq<TypeElement>, name: string, credit: int)
    requires Fits(w, rank, file, LiteralType(members), credit) && DirectMember(members, name).Some?
    ensures var m := DirectMember(members, name).value; m.ty.Some? ==> Fits(w, rank, file, m.ty.value, credit + 1)
  {
  }

  lemma TypeCallsStayWithin(w: World, rank: Ranking, cap: int, a: Call, b: Call)
    requires Ranked(w, rank) && a.TypeCall? && Within(w, rank, cap, a) && Calls(w, a, b)
    ensures Within(w, rank, cap, b)
  {
    var credit: int :| Fits(w, rank, a.file, a.t, credit) && |a.steps| + credit <= cap;
    match a.t
    case LiteralType(members) =>
      MemberFits(w, rank, a.file, members, a.steps[0].name, credit);
      assert Fits(w, rank, b.file, b.t, credit + 1) && |b.steps| + (credit + 1) <= cap;
    case ArrayType(element) =>
      assert Fits(w, rank, b.file, b.t, credit + 1) && |b.steps| + (credit + 1) <= cap;
    case IndexedAccessType(o, key) =>
      assert Fits(w, rank, b.file, b.t, credit - 1) && |b.steps| + (credit - 1) <= cap;
    case ReferenceType(head, qualified, args) =>
      if NamesArray(head) && args != [] && !PassesThrough(head) {
        assert Fits(w, rank, b.file, b.t, credit + 1) && |b.steps| + (credit + 1) <= cap;
      } else if b.TypeCall? {
        assert Fits(w, rank, b.file, b.t, credit);
      }
    case ParenthesizedType(_) => assert Fits(w, rank, b.file, b.t, credit);
    case IntersectionType(_) => assert Fits(w, rank, b.file, b.t, credit);
    case UnionType(_) => assert Fits(w, rank, b.file, b.t, credit);
    case OperatorType(_) => assert Fits(w, rank, b.file, b.t, credit);
    case OtherType =>
  }

  lemma DeclCallsStayWithin(w: World, rank: Ranking, cap: int, a: Call, b: Call)
    requires Ranked(w, rank) && a.DeclCall? && Within(w, rank, cap, a) && Calls(w, a, b)
    ensures Within(w, rank, cap, b)
  {
    assert DeclFits(w, rank, a.id);
    match w.decls[a.id]
    case InterfaceDeclaration(members, bases) =>
      if DirectMember(members, a.steps[0].name).Some? {
        MemberFits(w, rank, a.id.file, members, a.steps[0].name, rank[a.id]);
        assert Fits(w, rank, b.file, b.t, rank[a.id] + 1) && |b.steps| + (rank[a.id] + 1) <= cap;
      } else {
        var i :| 0 <= i < |bases| && BasePart(w, a.id.file, bases[i], a.steps) == Visit(b);
        assert bases[i] in bases;
      }
    case AliasDeclaration(t) =>
      assert Fits(w, rank, b.file, b.t, rank[a.id]);
  }

  lemma {:induction false} ChainsStayWithin(w: World, rank: Ranking, cap: int, c: Call, p: seq<Call>)
    requires Ranked(w, rank) && Within(w, rank, cap, c) && ChainFrom(w, c, p)
    ensures Within(w, rank, cap, Last(p))
    decreases |p|
  {
    hide Within, Ranked;
    if |p| > 1 {
      var before := p[..|p| - 1];
      assert ChainFrom(w, c, before) && Calls(w, Last(before), Last(p));
      ChainsStayWithin(w, rank, cap, c, before);
      if Last(before).TypeCall? {
        TypeCallsStayWithin(w, rank, cap, Last(before), Last(p));
      } else {
        DeclCallsStayWithin(w, rank, cap, Last(before), Last(p));
      }
    }
  }

  /** On a ranked world only finitely many keys are reachable from a declaration, so every walk ends. */
  lemma RankedWalksEnd(w: World, rank: Ranking, id: DeclId, steps: seq<Step>, seen: set<Key>)
    requires Ranked(w, rank) && id in w.decls
    ensures FinitelyManyKeys(w, DeclCall(id, steps)) && Ends(w, DeclCall(id, steps), seen)
  {
    var c, cap := DeclCall(id, steps), |steps| + rank[id];
    assert Within(w, rank, cap, c);
    forall p | ChainFrom(w, c, p) && Guard(w, Last(p)).Some? ensures Guard(w, Last(p)).value in Keys(w, cap) {
      ChainsStayWithin(w, rank, cap, c, p);
    }
    assert KeysWithin(w, c, Keys(w, cap));
    FinitelyManyKeysEnd(w, c, seen);
  }

  // ---------------------------------------------------------------- no string index

  predicate Unindexed(t: TypeNode) {
    match t
    case LiteralType(members) =>
      forall m :: m in members && m.PropertySignature? && m.ty.Some? ==> Unindexed(m.ty.value)
    case ParenthesizedType(inner) => Unindexed(inner)
    case IntersectionType(parts) => forall p :: p in parts ==> Unindexed(p)
    case UnionType(parts) => forall p :: p in parts ==> Unindexed(p)
    case ArrayType(element) => Unindexed(element)
    case OperatorType(inner) => Unindexed(inner)
    case IndexedAccessType(_, key) => key.None?
    case ReferenceType(_, _, args) => forall a :: a in args ==> Unindexed(a)
    case OtherType => true
  }

  predicate UnindexedDecl(d: Declaration) {
    match d
    case InterfaceDeclaration(members, _) => Unindexed(LiteralType(members))
    case AliasDeclaration(t) => Unindexed(t)
    case EnumDeclaration => true
  }

  ghost function Flat(w: World): Ranking {
    map id | id in w.decls :: 0
  }

  lemma {:induction false} UnindexedTypeFits(w: World, file: string, t: TypeNode, credit: nat)
    requires Unindexed(t)
    ensures Fits(w, Flat(w), file, t, credit)
    decreases t
  {
    match t
    case LiteralType(members) =>
      forall m | m in members && m.PropertySignature? && m.ty.Some?
        ensures Fits(w, Flat(w), file, m.ty.value, credit + 1)
      {
        UnindexedTypeFits(w, file, m.ty.value, credit + 1);
      }
    case ParenthesizedType(inner) => UnindexedTypeFits(w, file, inner, credit);
    case IntersectionType(parts) =>
      forall p | p in parts ensures Fits(w, Flat(w), file, p, credit) {
        UnindexedTypeFits(w, file, p, credit);
      }
    case UnionType(parts) =>
      forall p | p in parts ensures Fits(w, Flat(w), file, p, credit) {
        UnindexedTypeFits(w, file, p, credit);
      }
    case ArrayType(element) => UnindexedTypeFits(w, file, element, credit + 1);
    case OperatorType(inner) => UnindexedTypeFits(w, file, inner, credit);
    case IndexedAccessType(_, _) =>
    case ReferenceType(_, _, args) =>
      if args != [] {
        assert args[0] in args;
        UnindexedTypeFits(w, file, args[0], credit);
        UnindexedTypeFits(w, file, args[0], credit + 1);
      }
    case OtherType =>
  }

  /** Without string-indexed access every walk ends, however cyclic interfaces, aliases and heritage are. */
  lemma UnindexedWalksEnd(w: World, id: DeclId, steps: seq<Step>, seen: set<Key>)
    requires id in w.decls && forall d :: d in w.decls ==> UnindexedDecl(w.decls[d])
    ensures Ends(w, DeclCall(id, steps), seen)
  {
    forall d | d in w.decls ensures DeclFits(w, Flat(w), d) {
      match w.decls[d]
      case InterfaceDeclaration(members, bases) => UnindexedTypeFits(w, d.file, LiteralType(members), 0);
      case AliasDeclaration(t) => UnindexedTypeFits(w, d.file, t, 0);
      case EnumDeclaration =>
    }
    RankedWalksEnd(w, Flat(w), id, steps, seen);
  }

  /** Without string-indexed access a call has only part of the path left, in a type without any either. */
  ghost predicate OnTheWay(path: seq<Step>, c: Call) {
    && |c.steps| <= |path| && c.steps == path[|path| - |c.steps|..]
    && (c.TypeCall? ==> Unindexed(c.t))
  }

  lemma Unlengthened(path: seq<Step>, a: Call, b: Call)
    requires OnTheWay(path, a) && a.steps != [] && (b.steps == a.steps || b.steps == a.steps[1..])
    requires b.TypeCall? ==> Unindexed(b.t)
    ensures OnTheWay(path, b)
  {
  }

  lemma DeclStaysOnTheWay(w: World, path: seq<Step>, a: Call, b: Call)
    requires a.DeclCall? && a.id in w.decls && UnindexedDecl(w.decls[a.id]) && OnTheWay(path, a) && Calls(w, a, b)
    ensures OnTheWay(path, b)
  {
    hide OnTheWay;
    match w.decls[a.id]
    case InterfaceDeclaration(members, bases) =>
      if DirectMember(members, a.steps[0].name).Some? {
        assert DirectMember(members, a.steps[0].name).value in members;
      }
      Unlengthened(path, a, b);
    case AliasDeclaration(_) => Unlengthened(path, a, b);
  }

  lemma TypeStaysOnTheWay(w: World, path: seq<Step>, a: Call, b: Call)
    requires a.TypeCall? && OnTheWay(path, a) && Unindexed(a.t) && Calls(w, a, b)
    ensures OnTheWay(path, b)
  {
    hide OnTheWay;
    if a.t.LiteralType? {
      assert DirectMember(a.t.members, a.steps[0].name).value in a.t.members;
    }
    Unlengthened(path, a, b);
  }

  lemma {:induction false} ChainsStayOnTheWay(w: World, c: Call, p: seq<Call>)
    requires forall d :: d in w.decls ==> UnindexedDecl(w.decls[d])
    requires OnTheWay(c.steps, c) && ChainFrom(w, c, p)
    ensures OnTheWay(c.steps, Last(p))
    decreases |p|
  {
    hide OnTheWay, UnindexedDecl;
    if |p| > 1 {
      var before := p[..|p| - 1];
      assert ChainFrom(w, c, before) && Calls(w, Last(before), Last(p));
      ChainsStayOnTheWay(w, c, before);
      if Last(before).DeclCall? {
        assert Last(before).id in w.decls && UnindexedDecl(w.decls[Last(before).id]);
        DeclStaysOnTheWay(w, c.steps, Last(before), Last(p));
      } else {
        assert Unindexed(Last(before).t) by {
          OnTheWayIsUnindexed(c.steps, Last(before));
        }
        TypeStaysOnTheWay(w, c.steps, Last(before), Last(p));
      }
    }
  }

  lemma OnTheWayIsUnindexed(path: seq<Step>, c: Call)
    requires OnTheWay(path, c) && c.TypeCall?
    ensures Unindexed(c.t)
  {
  }

  /** There no step lists collide, so the exact condition applies to every such world. */
  lemma UnindexedCallsDoNotCollide(w: World, id: DeclId, steps: seq<Step>)
    requires forall d :: d in w.decls ==> UnindexedDecl(w.decls[d])
    ensures CollisionFree(w, DeclCall(id, steps))
  {
    var c := DeclCall(id, steps);
    forall p, q | ChainFrom(w, c, p) && ChainFrom(w, c, q) && Guard(w, Last(p)).Some?
                  && Guard(w, Last(p)) == Guard(w, Last(q))
      ensures Last(p) == Last(q)
    {
      ChainsStayOnTheWay(w, c, p);
      ChainsStayOnTheWay(w, c, q);
    }
  }

  // ---------------------------------------------------------------- walks that do not end

  /** The declaration is an alias for an index into itself, such as `type A = A['x']`. */
  ghost predicate SelfIndexing(w: World, id: DeclId, name: string, key: string) {
    && id in w.decls && DeclForTypeName(w, id.file, name) == Some(id)
    && !PassesThrough(name) && !NamesArray(name)
    && w.decls[id] == AliasDeclaration(IndexedAccessType(ReferenceType(name, false, []), Some(key)))
  }

  lemma MoveOfFollow(w: World, depth: nat, c: Call, d: Call, seen: set<Key>)
    requires Expand(w, c) == Follow(d) && !Blocked(w, c, seen) && depth > 0
    ensures Eval(w, depth, c, seen) == Eval(w, depth - 1, d, Enter(w, c, seen))
  {
    FollowedOutcome(w, depth - 1, d, Enter(w, c, seen));
  }

  /** In every world, an alias indexing itself is never answered: each round the path is longer and past the guard. */
  lemma {:induction false} SelfIndexingNeverAnswers(
      w: World, id: DeclId, name: string, key: string, steps: seq<Step>, seen: set<Key>, depth: nat)
    requires SelfIndexing(w, id, name, key) && steps != []
    requires forall k :: k in seen && k.id == id ==> k.remaining < |steps|
    ensures Eval(w, depth, DeclCall(id, steps), seen).None?
    decreases depth
  {
    if depth >= 3 {
      var t := w.decls[id].ty;
      var longer := [Member(key)] + steps;
      var entered := seen + {Key(id, |steps|)};
      MoveOfFollow(w, depth, DeclCall(id, steps), TypeCall(id.file, t, steps), seen);
      MoveOfFollow(w, depth - 1, TypeCall(id.file, t, steps), TypeCall(id.file, t.object_, longer), entered);
      MoveOfFollow(w, depth - 2, TypeCall(id.file, t.object_, longer), DeclCall(id, longer), entered);
      SelfIndexingNeverAnswers(w, id, name, key, longer, entered, depth - 3);
    } else if depth == 2 {
      MoveOfFollow(w, 2, DeclCall(id, steps), TypeCall(id.file, w.decls[id].ty, steps), seen);
      MoveOfFollow(w, 1, TypeCall(id.file, w.decls[id].ty, steps),
                   TypeCall(id.file, w.decls[id].ty.object_, [Member(key)] + steps), seen + {Key(id, |steps|)});
    } else if depth == 1 {
      MoveOfFollow(w, 1, DeclCall(id, steps), TypeCall(id.file, w.decls[id].ty, steps), seen);
    }
  }

  lemma SelfIndexingDoesNotEnd(w: World, id: DeclId, name: string, key: string, steps: seq<Step>)
    requires SelfIndexing(w, id, name, key) && steps != []
    ensures !Ends(w, DeclCall(id, steps), {}) && !FinitelyManyKeys(w, DeclCall(id, steps))
  {
    forall depth: nat ensures Eval(w, depth, DeclCall(id, steps), {}).None? {
      SelfIndexingNeverAnswers(w, id, name, key, steps, {}, depth);
    }
    if FinitelyManyKeys(w, DeclCall(id, steps)) {
      FinitelyManyKeysEnd(w, DeclCall(id, steps), {});
    }
  }

  /** The calls an alias indexing itself makes: always the same key before what there was. */
  ghost predicate InTheLoop(w: World, id: DeclId, name: string, key: string, path: seq<Step>, c: Call) {
    && |c.steps| >= |path|
    && c.steps == seq(|c.steps| - |path|, _ => Member(key)) + path
    && match c
       case DeclCall(d, _) => d == id
       case TypeCall(file, t, _) =>
         file == id.file && id in w.decls && w.decls[id].AliasDeclaration?
         && (t == w.decls[id].ty || t == ReferenceType(name, false, []))
  }

  lemma StaysInTheLoop(w: World, id: DeclId, name: string, key: string, path: seq<Step>, a: Call, b: Call)
    requires SelfIndexing(w, id, name, key) && InTheLoop(w, id, name, key, path, a) && Calls(w, a, b)
    ensures InTheLoop(w, id, name, key, path, b)
  {
    if a.TypeCall? && a.t == w.decls[id].ty {
      var pushed := seq(|a.steps| - |path|, _ => Member(key));
      assert seq(|a.steps| - |path| + 1, _ => Member(key)) == [Member(key)] + pushed;
      assert b.steps == [Member(key)] + (pushed + path) == ([Member(key)] + pushed) + path;
    }
  }

  lemma {:induction false} ChainsStayInTheLoop(
      w: World, id: DeclId, name: string, key: string, path: seq<Step>, c: Call, p: seq<Call>)
    requires SelfIndexing(w, id, name, key) && InTheLoop(w, id, name, key, path, c) && ChainFrom(w, c, p)
    ensures InTheLoop(w, id, name, key, path, Last(p))
    decreases |p|
  {
    hide InTheLoop, SelfIndexing;
    if |p| > 1 {
      var before := p[..|p| - 1];
      assert ChainFrom(w, c, before) && Calls(w, Last(before), Last(p));
      ChainsStayInTheLoop(w, id, name, key, path, c, before);
      StaysInTheLoop(w, id, name, key, path, Last(before), Last(p));
    }
  }

  /** No step lists collide there either: the exact condition has instances that end and instances that do not. */
  lemma SelfIndexingDoesNotCollide(w: World, id: DeclId, name: string, key: string, steps: seq<Step>)
    requires SelfIndexing(w, id, name, key)
    ensures CollisionFree(w, DeclCall(id, steps))
  {
    var c := DeclCall(id, steps);
    assert InTheLoop(w, id, name, key, steps, c) by {
      assert c.steps == seq(0, _ => Member(key)) + steps;
    }
    forall p, q | ChainFrom(w, c, p) && ChainFrom(w, c, q) && Guard(w, Last(p)).Some?
                  && Guard(w, Last(p)) == Guard(w, Last(q))
      ensures Last(p) == Last(q)
    {
      ChainsStayInTheLoop(w, id, name, key, steps, c, p);
      ChainsStayInTheLoop(w, id, name, key, steps, c, q);
    }
  }

  // ---------------------------------------------------------------- an index into oneself that ends

  /** `interface C { a: { p: C['a'] } }` */
  function Consuming(): World {
    var inner := IndexedAccessType(ReferenceType("C", false, []), Some("a"));
    World(
      map[DeclId("f", 0) :=
        InterfaceDeclaration([PropertySignature("a", Some(LiteralType([PropertySignature("p", Some(inner))])))], [])],
      map[("f", "C") := DeclId("f", 0)])
  }

  /** Each round consumes two steps and pushes one back, so the walk ends on every path. */
  lemma ConsumingEnds(steps: seq<Step>, seen: set<Key>)
    ensures Ends(Consuming(), DeclCall(DeclId("f", 0), steps), seen)
  {
    var w := Consuming();
    var rank := Flat(w);
    var index := IndexedAccessType(ReferenceType("C", false, []), Some("a"));
    var a := LiteralType([PropertySignature("p", Some(index))]);
    assert DeclForTypeName(w, "f", "C") == Some(DeclId("f", 0));
    assert Fits(w, rank, "f", ReferenceType("C", false, []), 1);
    assert Fits(w, rank, "f", index, 2);
    assert Fits(w, rank, "f", a, 1);
    assert w.decls[DeclId("f", 0)].members == [PropertySignature("a", Some(a))];
    assert DeclFits(w, rank, DeclId("f", 0));
    RankedWalksEnd(w, rank, DeclId("f", 0), steps, seen);
  }
}

/**
 When the walk through declared types ends (docker/support/scripts/gen-config-catalog.ts).

 Calls are related without any visited set: one call makes another when its move visits it.  The
 walk ends whenever the chains of calls that enter no key twice stay bounded, and only finitely
 many keys being reachable is enough for that.  Where no two different step lists of the same
 length meet at a declaration, it is also necessary.  Where they do meet, nothing that
 ignores the order of the branches can decide it, because the guard compares lengths only.
 */
module TypeWalkEnding {
  import opened Wrappers
  import opened TypeMeaning
  import opened TypePathLookup

  // ---------------------------------------------------------------- calls and chains

  ghost predicate Calls(w: World, a: Call, b: Call) {
    exists i :: 0 <= i < |PartsOf(Expand(w, a))| && PartsOf(Expand(w, a))[i] == Visit(b)
  }

  function Last(p: seq<Call>): Call
    requires p != []
  {
    p[|p| - 1]
  }

  ghost predicate ChainFrom(w: World, c: Call, p: seq<Call>) {
    p != [] && p[0] == c && forall i :: 0 < i < |p| ==> Calls(w, p[i - 1], p[i])
  }

  lemma ChainLonger(w: World, c: Call, p: seq<Call>, b: Call)
    requires ChainFrom(w, c, p) && Calls(w, Last(p), b)
    ensures ChainFrom(w, c, p + [b])
  {
  }

  /** No key is entered twice along the chain. */
  ghost predicate Simple(w: World, p: seq<Call>) {
    forall i, j :: 0 <= i < j < |p| && Guard(w, p[i]).Some? ==> Guard(w, p[i]) != Guard(w, p[j])
  }

  /** The chains that enter no key twice have at most that many steps to go at a declaration. */
  ghost predicate Bounded(w: World, c: Call, cap: nat) {
    forall p :: ChainFrom(w, c, p) && Simple(w, p) && Guard(w, Last(p)).Some? ==> |Last(p).steps| <= cap
  }

  ghost predicate KeysWithin(w: World, c: Call, keys: set<Key>) {
    forall p :: ChainFrom(w, c, p) && Guard(w, Last(p)).Some? ==> Guard(w, Last(p)).value in keys
  }

  ghost predicate FinitelyManyKeys(w: World, c: Call) {
    exists keys: set<Key> :: KeysWithin(w, c, keys)
  }

  lemma {:induction false} LargestRemaining(keys: set<Key>) returns (cap: nat)
    ensures forall k :: k in keys ==> k.remaining <= cap
  {
    cap := 0;
    if keys != {} {
      var k :| k in keys;
      var rest := LargestRemaining(keys - {k});
      cap := if rest < k.remaining then k.remaining else rest;
      forall j | j in keys ensures j.remaining <= cap {
        assert j == k || j in keys - {k};
      }
    }
  }

  lemma FinitelyManyIsBounded(w: World, c: Call, keys: set<Key>) returns (cap: nat)
    requires KeysWithin(w, c, keys)
    ensures Bounded(w, c, cap)
  {
    cap := LargestRemaining(keys);
  }

  // ---------------------------------------------------------------- bounded walks end

  function TypeSize(t: TypeNode): nat {
    match t
    case LiteralType(members) => 1 + MembersSize(members)
    case ParenthesizedType(inner) => 1 + TypeSize(inner)
    case IntersectionType(parts) => 1 + TypesSize(parts)
    case UnionType(parts) => 1 + TypesSize(parts)
    case ArrayType(element) => 1 + TypeSize(element)
    case OperatorType(inner) => 1 + TypeSize(inner)
    case IndexedAccessType(o, _) => 1 + TypeSize(o)
    case ReferenceType(_, _, args) => 1 + TypesSize(args)
    case OtherType => 1
  }

  function TypesSize(types: seq<TypeNode>): nat {
    if types == [] then 0 else TypeSize(types[0]) + TypesSize(types[1..])
  }

  function MembersSize(members: seq<TypeElement>): nat {
    if members == [] then 0
    else
      (if members[0].PropertySignature? && members[0].ty.Some? then TypeSize(members[0].ty.value) else 0)
      + MembersSize(members[1..])
  }

  lemma {:induction false} TypesWeighMore(types: seq<TypeNode>, t: TypeNode)
    requires t in types
    ensures TypeSize(t) <= TypesSize(types)
  {
    if t != types[0] {
      TypesWeighMore(types[1..], t);
    }
  }

  lemma {:induction false} MembersWeighMore(members: seq<TypeElement>, m: TypeElement)
    requires m in members && m.PropertySignature? && m.ty.Some?
    ensures TypeSize(m.ty.value) <= MembersSize(members)
  {
    if m != members[0] {
      MembersWeighMore(members[1..], m);
    }
  }

  function Weight(c: Call): nat {
    if c.TypeCall? then 1 + TypeSize(c.t) else 0
  }

  /** Between two declarations a walk only descends in the type at hand. */
  lemma CallsWeighLess(w: World, a: Call, b: Call)
    requires a.TypeCall? && Calls(w, a, b)
    ensures Weight(b) < Weight(a)
  {
    match a.t
    case LiteralType(members) => MembersWeighMore(members, DirectMember(members, a.steps[0].name).value);
    case IntersectionType(parts) => TypesWeighMore(parts, b.t);
    case UnionType(parts) => TypesWeighMore(parts, b.t);
    case ReferenceType(_, _, args) =>
      if b.TypeCall? {
        TypesWeighMore(args, b.t);
      }
    case _ =>
  }

  function Heaviest(parts: seq<Part>): (n: nat)
    ensures forall p :: p in parts && p.Visit? ==> Weight(p.call) < n
  {
    if parts == [] then 0
    else
      var n := Heaviest(parts[1..]);
      if parts[0].Visit? && Weight(parts[0].call) >= n then Weight(parts[0].call) + 1 else n
  }

  ghost function Keys(w: World, cap: nat): set<Key> {
    set id, l | id in w.decls && 0 <= l <= cap :: Key(id, l)
  }

  ghost function Fresh(w: World, cap: nat, seen: set<Key>): nat {
    |Keys(w, cap) - seen|
  }

  lemma EnteringUsesUp(w: World, cap: nat, c: Call, seen: set<Key>)
    requires Guard(w, c).Some? && Guard(w, c).value !in seen && |c.steps| <= cap
    ensures Fresh(w, cap, Enter(w, c, seen)) < Fresh(w, cap, seen)
  {
    var key := Guard(w, c).value;
    assert key in Keys(w, cap);
    assert Keys(w, cap) - (seen + {key}) == Keys(w, cap) - seen - {key};
  }

  lemma SeenUsesUp(w: World, cap: nat, seen: set<Key>, more: set<Key>)
    requires seen <= more
    ensures Fresh(w, cap, more) <= Fresh(w, cap, seen)
  {
    var a, b := Keys(w, cap) - more, Keys(w, cap) - seen;
    assert b == a + (b - a);
  }

  /** The keys of the chain have been visited. */
  ghost predicate Visited(w: World, p: seq<Call>, seen: set<Key>) {
    forall i :: 0 <= i < |p| && Guard(w, p[i]).Some? ==> Guard(w, p[i]).value in seen
  }

  lemma UnblockedIsSimple(w: World, p: seq<Call>, seen: set<Key>)
    requires p != [] && Simple(w, p[..|p| - 1]) && Visited(w, p[..|p| - 1], seen) && !Blocked(w, Last(p), seen)
    ensures Simple(w, p) && Visited(w, p, Enter(w, Last(p), seen))
  {
    var before := p[..|p| - 1];
    forall i, j | 0 <= i < j < |p| && Guard(w, p[i]).Some? ensures Guard(w, p[i]) != Guard(w, p[j]) {
      assert before[i] == p[i];
      assert j < |before| ==> before[j] == p[j];
    }
    forall i | 0 <= i < |p| && Guard(w, p[i]).Some? ensures Guard(w, p[i]).value in Enter(w, Last(p), seen) {
      assert i < |before| ==> before[i] == p[i];
    }
  }

  /** From every visited set that holds the chain so far: bounded chains mean an answer. */
  lemma {:induction false} BoundedWalkEnds(w: World, start: Call, cap: nat, p: seq<Call>, seen: set<Key>)
    returns (depth: nat)
    requires Bounded(w, start, cap) && ChainFrom(w, start, p)
    requires Simple(w, p[..|p| - 1]) && Visited(w, p[..|p| - 1], seen)
    ensures Eval(w, depth, Last(p), seen).Some?
    decreases Fresh(w, cap, seen), Weight(Last(p)), |PartsOf(Expand(w, Last(p)))| + 1
  {
    var c := Last(p);
    var m := Expand(w, c);
    depth := 1;
    if !Blocked(w, c, seen) && !m.Answer? {
      UnblockedIsSimple(w, p, seen);
      hide Simple, Visited, ChainFrom, Bounded;
      var weight := Weight(c);
      if Guard(w, c).Some? {
        assert |c.steps| <= cap by {
          assert Bounded(w, start, cap);
          BoundedAt(w, start, cap, p);
        }
        EnteringUsesUp(w, cap, c, seen);
        weight := Heaviest(m.parts);
      }
      forall i | 0 <= i < |m.parts| && m.parts[i].Visit?
        ensures Calls(w, c, m.parts[i].call) && Weight(m.parts[i].call) < weight
      {
        assert PartsOf(m)[i] == Visit(m.parts[i].call) && m.parts[i] in m.parts;
        if Guard(w, c).None? {
          CallsWeighLess(w, c, m.parts[i].call);
        }
      }
      depth := BoundedPartsEnd(w, start, cap, p, m.parts, Enter(w, c, seen), weight);
      depth := depth + 1;
    }
  }

  lemma BoundedAt(w: World, c: Call, cap: nat, p: seq<Call>)
    requires Bounded(w, c, cap) && ChainFrom(w, c, p) && Simple(w, p) && Guard(w, Last(p)).Some?
    ensures |Last(p).steps| <= cap
  {
  }

  lemma {:induction false} BoundedPartsEnd(
      w: World, start: Call, cap: nat, p: seq<Call>, parts: seq<Part>, seen: set<Key>, weight: nat)
    returns (depth: nat)
    requires Bounded(w, start, cap) && ChainFrom(w, start, p) && Simple(w, p) && Visited(w, p, seen)
    requires forall i :: 0 <= i < |parts| && parts[i].Visit? ==>
               Calls(w, Last(p), parts[i].call) && Weight(parts[i].call) < weight
    ensures EvalParts(w, depth, parts, seen).Some?
    decreases Fresh(w, cap, seen), weight, |parts|
  {
    hide Simple, Visited, ChainFrom, Bounded, Calls, Fresh, Weight, EvalParts;
    depth := 0;
    if parts == [] {
      PartsJoin(w, 0, 0, parts, seen);
    } else {
      var first := 0;
      var between := seen;
      if parts[0].Visit? {
        var c := parts[0].call;
        ChainLonger(w, start, p, c);
        assert (p + [c])[..|p|] == p;
        first := BoundedWalkEnds(w, start, cap, p + [c], seen);
        SeenGrows(w, first, c, seen);
        between := Eval(w, first, c, seen).value.seen;
        SeenUsesUp(w, cap, seen, between);
        StaysVisited(w, p, seen, between);
      }
      hide Eval;
      var rest := BoundedPartsEnd(w, start, cap, p, parts[1..], between, weight);
      depth := if first < rest then rest else first;
      PartsJoin(w, first, rest, parts, seen);
    }
  }

  lemma PartsJoin(w: World, first: nat, rest: nat, parts: seq<Part>, seen: set<Key>)
    requires parts != [] && parts[0].Visit? ==> Eval(w, first, parts[0].call, seen).Some?
    requires parts != [] ==>
               var between := if parts[0].Visit? then Eval(w, first, parts[0].call, seen).value.seen else seen;
               EvalParts(w, rest, parts[1..], between).Some?
    ensures EvalParts(w, if first < rest then rest else first, parts, seen).Some?
  {
    var depth := if first < rest then rest else first;
    if parts != [] {
      if parts[0].Visit? {
        MoreDepth(w, first, depth, parts[0].call, seen);
      }
      MoreDepthForParts(w, rest, depth, parts[1..], EvalPart(w, depth, parts[0], seen).value.seen);
    }
  }

  lemma StaysVisited(w: World, p: seq<Call>, seen: set<Key>, more: set<Key>)
    requires Visited(w, p, seen) && seen <= more
    ensures Visited(w, p, more)
  {
  }

  /** Whatever has been visited before, a call whose simple chains are bounded is answered. */
  lemma BoundedCallsEnd(w: World, c: Call, cap: nat, seen: set<Key>)
    requires Bounded(w, c, cap)
    ensures Ends(w, c, seen)
  {
    assert ChainFrom(w, c, [c]);
    var depth := BoundedWalkEnds(w, c, cap, [c], seen);
  }

  lemma FinitelyManyKeysEnd(w: World, c: Call, seen: set<Key>)
    requires FinitelyManyKeys(w, c)
    ensures Ends(w, c, seen)
  {
    var keys :| KeysWithin(w, c, keys);
    var cap := FinitelyManyIsBounded(w, c, keys);
    BoundedCallsEnd(w, c, cap, seen);
  }

  // ---------------------------------------------------------------- ended walks are closed

  /** Every declaration the call meets first, within n further calls, has been visited. */
  ghost predicate Frontier(w: World, n: nat, c: Call, seen: set<Key>)
    decreases n
  {
    if Guard(w, c).Some? then Guard(w, c).value in seen
    else n == 0 || forall b {:trigger Calls(w, c, b)} :: Calls(w, c, b) ==> Frontier(w, n - 1, b, seen)
  }

  lemma FrontierOf(w: World, n: nat, c: Call, seen: set<Key>)
    requires Guard(w, c).Some? ==> Guard(w, c).value in seen
    requires Guard(w, c).None? && n > 0 ==> forall b :: Calls(w, c, b) ==> Frontier(w, n - 1, b, seen)
    ensures Frontier(w, n, c, seen)
  {
  }

  lemma {:induction false} FrontierGrows(w: World, n: nat, c: Call, seen: set<Key>, more: set<Key>)
    requires Frontier(w, n, c, seen) && seen <= more
    ensures Frontier(w, n, c, more)
    decreases n
  {
    hide Calls, Guard;
    if Guard(w, c).None? && n > 0 {
      forall b | Calls(w, c, b) ensures Frontier(w, n - 1, b, more) {
        FrontierGrows(w, n - 1, b, seen, more);
      }
    }
    FrontierOf(w, n, c, more);
  }

  lemma {:induction false} AnswersMeetFrontier(w: World, depth: nat, c: Call, seen: set<Key>, n: nat)
    requires Eval(w, depth, c, seen).Some?
    ensures Frontier(w, n, c, Eval(w, depth, c, seen).value.seen)
    decreases depth, 0
  {
    hide Frontier, Expand, EvalParts;
    var after := Eval(w, depth, c, seen).value.seen;
    SeenGrows(w, depth, c, seen);
    if Guard(w, c).None? && n > 0 {
      forall b | Calls(w, c, b) ensures Frontier(w, n - 1, b, after) {
        var i: nat :| i < |PartsOf(Expand(w, c))| && PartsOf(Expand(w, c))[i] == Visit(b);
        PartMeetsFrontier(w, depth - 1, Expand(w, c).parts, seen, n - 1, i);
      }
    }
    FrontierOf(w, n, c, after);
  }

  lemma {:induction false} PartMeetsFrontier(w: World, depth: nat, parts: seq<Part>, seen: set<Key>, n: nat, i: nat)
    requires EvalParts(w, depth, parts, seen).Some? && i < |parts| && parts[i].Visit?
    ensures Frontier(w, n, parts[i].call, EvalParts(w, depth, parts, seen).value.seen)
    decreases depth, 1 + |parts|
  {
    var between := EvalPart(w, depth, parts[0], seen).value.seen;
    if i == 0 {
      AnswersMeetFrontier(w, depth, parts[0].call, seen, n);
      SeenGrowsOverParts(w, depth, parts[1..], between);
      FrontierGrows(w, n, parts[0].call, between, EvalParts(w, depth, parts, seen).value.seen);
    } else {
      PartMeetsFrontier(w, depth, parts[1..], between, n, i - 1);
    }
  }

  /** A finished call: whatever it calls meets visited declarations only. */
  ghost predicate Finished(w: World, c: Call, seen: set<Key>) {
    forall b, n: nat {:trigger Frontier(w, n, b, seen)} :: Calls(w, c, b) ==> Frontier(w, n, b, seen)
  }

  lemma FinishedGrows(w: World, c: Call, seen: set<Key>, more: set<Key>)
    requires Finished(w, c, seen) && seen <= more
    ensures Finished(w, c, more)
  {
    forall b, n: nat | Calls(w, c, b) ensures Frontier(w, n, b, more) {
      FrontierGrows(w, n, b, seen, more);
    }
  }

  /** Every key a walk adds belongs to a call it reached and finished. */
  lemma {:induction false} AddedKeysAreFinished(w: World, start: Call, depth: nat, p: seq<Call>, seen: set<Key>, k: Key)
    returns (q: seq<Call>)
    requires ChainFrom(w, start, p) && Eval(w, depth, Last(p), seen).Some?
    requires k in Eval(w, depth, Last(p), seen).value.seen && k !in seen
    ensures ChainFrom(w, start, q) && Guard(w, Last(q)) == Some(k)
    ensures Finished(w, Last(q), Eval(w, depth, Last(p), seen).value.seen)
    decreases depth, 0
  {
    var c := Last(p);
    var m := Expand(w, c);
    if Guard(w, c) == Some(k) {
      q := p;
      forall b, n: nat | Calls(w, c, b) ensures Frontier(w, n, b, Eval(w, depth, c, seen).value.seen) {
        var i: nat :| i < |PartsOf(m)| && PartsOf(m)[i] == Visit(b);
        PartMeetsFrontier(w, depth - 1, m.parts, Enter(w, c, seen), n, i);
      }
    } else {
      forall i | 0 <= i < |m.parts| && m.parts[i].Visit? ensures Calls(w, c, m.parts[i].call) {
        assert PartsOf(m)[i] == Visit(m.parts[i].call);
      }
      q := AddedKeysAreFinishedByParts(w, start, depth - 1, p, m.parts, Enter(w, c, seen), k);
    }
  }

  lemma {:induction false} AddedKeysAreFinishedByParts(
      w: World, start: Call, depth: nat, p: seq<Call>, parts: seq<Part>, seen: set<Key>, k: Key)
    returns (q: seq<Call>)
    requires ChainFrom(w, start, p) && EvalParts(w, depth, parts, seen).Some?
    requires forall i :: 0 <= i < |parts| && parts[i].Visit? ==> Calls(w, Last(p), parts[i].call)
    requires k in EvalParts(w, depth, parts, seen).value.seen && k !in seen
    ensures ChainFrom(w, start, q) && Guard(w, Last(q)) == Some(k)
    ensures Finished(w, Last(q), EvalParts(w, depth, parts, seen).value.seen)
    decreases depth, 1 + |parts|
  {
    hide ChainFrom, Finished, Calls;
    var between := EvalPart(w, depth, parts[0], seen).value.seen;
    if k in between {
      ChainLonger(w, start, p, parts[0].call);
      q := AddedKeysAreFinished(w, start, depth, p + [parts[0].call], seen, k);
      SeenGrowsOverParts(w, depth, parts[1..], between);
      FinishedGrows(w, Last(q), between, EvalParts(w, depth, parts, seen).value.seen);
    } else {
      q := AddedKeysAreFinishedByParts(w, start, depth, p, parts[1..], between, k);
    }
  }

  /** No two different step lists of one length meet at a declaration. */
  ghost predicate CollisionFree(w: World, c: Call) {
    forall p, q :: ChainFrom(w, c, p) && ChainFrom(w, c, q) && Guard(w, Last(p)).Some? &&
        Guard(w, Last(p)) == Guard(w, Last(q))
      ==> Last(p) == Last(q)
  }

  lemma SameKeySameCall(w: World, c: Call, p: seq<Call>, q: seq<Call>)
    requires CollisionFree(w, c) && ChainFrom(w, c, p) && ChainFrom(w, c, q)
    requires Guard(w, Last(p)).Some? && Guard(w, Last(p)) == Guard(w, Last(q))
    ensures Last(p) == Last(q)
  {
  }

  lemma {:induction false} EndedWalkIsClosed(w: World, c: Call, depth: nat, p: seq<Call>, n: nat)
    requires CollisionFree(w, c) && Eval(w, depth, c, {}).Some? && ChainFrom(w, c, p)
    ensures Frontier(w, n, Last(p), Eval(w, depth, c, {}).value.seen)
    decreases |p|
  {
    var seen := Eval(w, depth, c, {}).value.seen;
    if |p| == 1 {
      AnswersMeetFrontier(w, depth, c, {}, n);
    } else {
      var before := p[..|p| - 1];
      assert ChainFrom(w, c, before) && Calls(w, Last(before), Last(p));
      EndedWalkIsClosed(w, c, depth, before, n + 1);
      if Guard(w, Last(before)).Some? {
        var k := Guard(w, Last(before)).value;
        assert ChainFrom(w, c, [c]) && Last([c]) == c;
        var q := AddedKeysAreFinished(w, c, depth, [c], {}, k);
        SameKeySameCall(w, c, before, q);
      }
    }
  }

  /**
   The exact condition, where no step lists collide: the walk ends if and only if finitely many keys are reachable.
   */
  lemma EndsIffFinitelyManyKeys(w: World, c: Call)
    requires CollisionFree(w, c)
    ensures Ends(w, c, {}) <==> FinitelyManyKeys(w, c)
  {
    if Ends(w, c, {}) {
      var depth: nat :| Eval(w, depth, c, {}).Some?;
      var seen := Eval(w, depth, c, {}).value.seen;
      forall p | ChainFrom(w, c, p) && Guard(w, Last(p)).Some? ensures Guard(w, Last(p)).value in seen {
        EndedWalkIsClosed(w, c, depth, p, 0);
      }
      assert KeysWithin(w, c, seen);
    }
    if FinitelyManyKeys(w, c) {
      FinitelyManyKeysEnd(w, c, {});
    }
  }
}

/**
 Declared types and what they have (docker/support/scripts/gen-config-catalog.ts).

 What a type definitely has or lacks at a path is defined inductively (`HasType`, `LacksType`).
 `Expand` is one round of the walk: a call is answered at once or by the answers of further
 calls.  The two agree, and the two definite answers exclude each other.
 */
module TypeMeaning {
  import opened Wrappers

  datatype Step = Member(name: string) | ArrayHop

  datatype Verdict = Found | Missing | Unknown

  datatype TypeElement = PropertySignature(name: string, ty: Option<TypeNode>) | OtherElement

  datatype TypeNode =
    | LiteralType(members: seq<TypeElement>)
    | ParenthesizedType(inner: TypeNode)
    | IntersectionType(parts: seq<TypeNode>)
    | UnionType(parts: seq<TypeNode>)
    | ArrayType(element: TypeNode)
    | OperatorType(inner: TypeNode)
    | IndexedAccessType(object_: TypeNode, key: Option<string>)  // None: not a string literal
    | ReferenceType(head: string, qualified: bool, args: seq<TypeNode>)
    | OtherType

  datatype Heritage = NamedBase(name: string) | OtherBase

  datatype Declaration =
    | InterfaceDeclaration(members: seq<TypeElement>, bases: seq<Heritage>)
    | AliasDeclaration(ty: TypeNode)
    | EnumDeclaration

  datatype DeclId = DeclId(file: string, pos: nat)

  /** The declarations in reach, and what a type name resolves to inside a file. */
  datatype World = World(decls: map<DeclId, Declaration>, names: map<(string, string), DeclId>)

  function DeclForTypeName(w: World, file: string, name: string): (r: Option<DeclId>)
    ensures r.Some? ==> r.value in w.decls
  {
    if (file, name) in w.names && w.names[(file, name)] in w.decls then Some(w.names[(file, name)]) else None
  }

  function BaseDecl(w: World, file: string, base: Heritage): (r: Option<DeclId>)
    ensures r.Some? ==> r.value in w.decls
  {
    if base.NamedBase? then DeclForTypeName(w, file, base.name) else None
  }

  predicate PassesThrough(head: string) {
    head == "Partial" || head == "Required" || head == "Readonly" || head == "NonNullable"
  }

  predicate NamesArray(head: string) {
    head == "Array" || head == "ReadonlyArray"
  }

  predicate NamedProperty(m: TypeElement, name: string) {
    m.PropertySignature? && m.name == name
  }

  /** The i-th member is the first property of that name. */
  ghost predicate FirstNamed(members: seq<TypeElement>, name: string, i: nat) {
    && i < |members| && NamedProperty(members[i], name)
    && forall j :: 0 <= j < i ==> !NamedProperty(members[j], name)
  }

  /** The first property of that name among the members. */
  function DirectMember(members: seq<TypeElement>, name: string): (r: Option<TypeElement>)
    ensures r.Some? ==> r.value in members && r.value.PropertySignature? && r.value.name == name
  {
    if members == [] then None
    else if NamedProperty(members[0], name) then Some(members[0])
    else DirectMember(members[1..], name)
  }

  /** It is found wherever it stands, whatever other members come before it, and missed only when there is none. */
  lemma {:induction false} DirectMemberIsTheFirst(members: seq<TypeElement>, name: string)
    ensures DirectMember(members, name).None? <==> forall m :: m in members && m.PropertySignature? ==> m.name != name
    ensures forall i: nat :: FirstNamed(members, name, i) ==> DirectMember(members, name) == Some(members[i])
  {
    if members != [] {
      DirectMemberIsTheFirst(members[1..], name);
      forall i: nat | FirstNamed(members, name, i) ensures DirectMember(members, name) == Some(members[i]) {
        if i > 0 {
          FirstNamedBehind(members, name, i);
        }
      }
      assert forall m :: m in members <==> m == members[0] || m in members[1..];
    }
  }

  lemma FirstNamedBehind(members: seq<TypeElement>, name: string, i: nat)
    requires FirstNamed(members, name, i) && i > 0
    ensures FirstNamed(members[1..], name, i - 1) && !NamedProperty(members[0], name)
  {
    forall j | 0 <= j < i - 1 ensures !NamedProperty(members[1..][j], name) {
      assert members[1..][j] == members[j + 1];
    }
  }

  // ---------------------------------------------------------------- meaning

  /** A member path that the member list itself settles positively. */
  ghost predicate HasMember(w: World, n: nat, file: string, members: seq<TypeElement>, steps: seq<Step>)
    requires steps != []
    decreases n, 1
  {
    && steps[0].Member?
    && var m := DirectMember(members, steps[0].name);
       m.Some? && (|steps| == 1 || (m.value.ty.Some? && HasType(w, n, file, m.value.ty.value, steps[1..])))
  }

  /** The type definitely has a member at the path, by a derivation of depth at most `n`. */
  ghost predicate HasType(w: World, n: nat, file: string, t: TypeNode, steps: seq<Step>)
    decreases n, 0
  {
    || steps == []
    || (n > 0 &&
        match t
        case LiteralType(members) => HasMember(w, n - 1, file, members, steps)
        case ParenthesizedType(inner) => HasType(w, n - 1, file, inner, steps)
        case IntersectionType(parts) => exists p :: p in parts && HasType(w, n - 1, file, p, steps)
        case UnionType(parts) => forall p :: p in parts ==> HasType(w, n - 1, file, p, steps)
        case ArrayType(element) => steps[0].ArrayHop? && HasType(w, n - 1, file, element, steps[1..])
        case OperatorType(inner) => HasType(w, n - 1, file, inner, steps)
        case IndexedAccessType(o, key) => key.Some? && HasType(w, n - 1, file, o, [Member(key.value)] + steps)
        case ReferenceType(head, qualified, args) =>
          if PassesThrough(head) && args != [] then HasType(w, n - 1, file, args[0], steps)
          else if NamesArray(head) && args != [] then steps[0].ArrayHop? && HasType(w, n - 1, file, args[0], steps[1..])
          else !qualified && var d := DeclForTypeName(w, file, head); d.Some? && HasDecl(w, n - 1, d.value, steps)
        case OtherType => false)
  }

  ghost predicate HasDecl(w: World, n: nat, id: DeclId, steps: seq<Step>)
    requires id in w.decls
    decreases n, 0
  {
    || steps == []
    || (n > 0 &&
        match w.decls[id]
        case InterfaceDeclaration(members, bases) =>
          && steps[0].Member?
          && if DirectMember(members, steps[0].name).Some? then HasMember(w, n - 1, id.file, members, steps)
             else
               exists b ::
                 b in bases && BaseDecl(w, id.file, b).Some? && HasDecl(w, n - 1, BaseDecl(w, id.file, b).value, steps)
        case AliasDeclaration(t) => HasType(w, n - 1, id.file, t, steps)
        case EnumDeclaration => false)
  }

  /** A member path that the member list itself settles negatively, below a member it has. */
  ghost predicate LacksBelowMember(w: World, n: nat, file: string, members: seq<TypeElement>, steps: seq<Step>)
    requires steps != []
    decreases n, 1
  {
    && steps[0].Member? && |steps| > 1
    && var m := DirectMember(members, steps[0].name);
       m.Some? && m.value.ty.Some? && LacksType(w, n, file, m.value.ty.value, steps[1..])
  }

  /** The type definitely has no member at the path, by a derivation of depth at most `n`. */
  ghost predicate LacksType(w: World, n: nat, file: string, t: TypeNode, steps: seq<Step>)
    decreases n, 0
  {
    steps != [] && n > 0 &&
    match t
    case LiteralType(members) =>
      && steps[0].Member?
      && (DirectMember(members, steps[0].name).None? || LacksBelowMember(w, n - 1, file, members, steps))
    case ParenthesizedType(inner) => LacksType(w, n - 1, file, inner, steps)
    case IntersectionType(parts) => forall p :: p in parts ==> LacksType(w, n - 1, file, p, steps)
    case UnionType(parts) => parts != [] && forall p :: p in parts ==> LacksType(w, n - 1, file, p, steps)
    case ArrayType(element) => steps[0].ArrayHop? && LacksType(w, n - 1, file, element, steps[1..])
    case OperatorType(inner) => LacksType(w, n - 1, file, inner, steps)
    case IndexedAccessType(o, key) => key.Some? && LacksType(w, n - 1, file, o, [Member(key.value)] + steps)
    case ReferenceType(head, qualified, args) =>
      if PassesThrough(head) && args != [] then LacksType(w, n - 1, file, args[0], steps)
      else if NamesArray(head) && args != [] then steps[0].ArrayHop? && LacksType(w, n - 1, file, args[0], steps[1..])
      else !qualified && var d := DeclForTypeName(w, file, head); d.Some? && LacksDecl(w, n - 1, d.value, steps)
    case OtherType => false
  }

  ghost predicate LacksDecl(w: World, n: nat, id: DeclId, steps: seq<Step>)
    requires id in w.decls
    decreases n, 0
  {
    steps != [] && n > 0 &&
    match w.decls[id]
    case InterfaceDeclaration(members, bases) =>
      && steps[0].Member?
      && if DirectMember(members, steps[0].name).Some? then LacksBelowMember(w, n - 1, id.file, members, steps)
         else forall b :: b in bases ==>
             BaseDecl(w, id.file, b).Some? && LacksDecl(w, n - 1, BaseDecl(w, id.file, b).value, steps)
    case AliasDeclaration(t) => LacksType(w, n - 1, id.file, t, steps)
    case EnumDeclaration => false
  }

  // ---------------------------------------------------------------- one round of the walk

  /** Looking a path up in a type of a file, or in a declaration. */
  datatype Call = TypeCall(file: string, t: TypeNode, steps: seq<Step>) | DeclCall(id: DeclId, steps: seq<Step>)

  /** A branch the walk combines: one it cannot see into, or one it visits. */
  datatype Part = Hidden | Visit(call: Call)

  /** How a call is answered: at once, or by any part (intersections, heritage), or by all of them (unions). */
  datatype Move = Answer(verdict: Verdict) | AnyOf(parts: seq<Part>) | AllOf(parts: seq<Part>)

  function Follow(c: Call): Move {
    AnyOf([Visit(c)])
  }

  function MemberMove(file: string, m: TypeElement, steps: seq<Step>): Move
    requires m.PropertySignature? && steps != []
  {
    if |steps| == 1 then Answer(Found)
    else if m.ty.None? then Answer(Unknown)
    else Follow(TypeCall(file, m.ty.value, steps[1..]))
  }

  function TypeParts(file: string, types: seq<TypeNode>, steps: seq<Step>): (parts: seq<Part>)
    ensures |parts| == |types|
    ensures forall i :: 0 <= i < |parts| ==> parts[i] == Visit(TypeCall(file, types[i], steps))
  {
    seq(|types|, i requires 0 <= i < |types| => Visit(TypeCall(file, types[i], steps)))
  }

  function BasePart(w: World, file: string, base: Heritage, steps: seq<Step>): Part {
    var d := BaseDecl(w, file, base);
    if d.Some? then Visit(DeclCall(d.value, steps)) else Hidden
  }

  function BaseParts(w: World, file: string, bases: seq<Heritage>, steps: seq<Step>): (parts: seq<Part>)
    ensures |parts| == |bases|
    ensures forall i :: 0 <= i < |parts| ==> parts[i] == BasePart(w, file, bases[i], steps)
  {
    seq(|bases|, i requires 0 <= i < |bases| => BasePart(w, file, bases[i], steps))
  }

  function ExpandReference(w: World, file: string, t: TypeNode, steps: seq<Step>): Move
    requires t.ReferenceType? && steps != []
  {
    if PassesThrough(t.head) && t.args != [] then Follow(TypeCall(file, t.args[0], steps))
    else if NamesArray(t.head) && t.args != [] then
      if steps[0].ArrayHop? then Follow(TypeCall(file, t.args[0], steps[1..])) else Answer(Unknown)
    else if t.qualified then Answer(Unknown)
    else
      var d := DeclForTypeName(w, file, t.head);
      if d.Some? then Follow(DeclCall(d.value, steps)) else Answer(Unknown)
  }

  function ExpandType(w: World, file: string, t: TypeNode, steps: seq<Step>): Move
    requires steps != []
  {
    match t
    case LiteralType(members) =>
      if steps[0].ArrayHop? then Answer(Unknown)
      else
        var m := DirectMember(members, steps[0].name);
        if m.Some? then MemberMove(file, m.value, steps) else Answer(Missing)
    case ParenthesizedType(inner) => Follow(TypeCall(file, inner, steps))
    case IntersectionType(types) => AnyOf(TypeParts(file, types, steps))
    case UnionType(types) => AllOf(TypeParts(file, types, steps))
    case ArrayType(element) =>
      if steps[0].ArrayHop? then Follow(TypeCall(file, element, steps[1..])) else Answer(Unknown)
    case OperatorType(inner) => Follow(TypeCall(file, inner, steps))
    case IndexedAccessType(o, key) =>
      if key.Some? then Follow(TypeCall(file, o, [Member(key.value)] + steps)) else Answer(Unknown)
    case ReferenceType(_, _, _) => ExpandReference(w, file, t, steps)
    case OtherType => Answer(Unknown)
  }

  function ExpandDecl(w: World, id: DeclId, steps: seq<Step>): Move
    requires id in w.decls && steps != []
  {
    match w.decls[id]
    case InterfaceDeclaration(members, bases) =>
      if steps[0].ArrayHop? then Answer(Unknown)
      else
        var m := DirectMember(members, steps[0].name);
        if m.Some? then MemberMove(id.file, m.value, steps) else AnyOf(BaseParts(w, id.file, bases, steps))
    case AliasDeclaration(t) => Follow(TypeCall(id.file, t, steps))
    case EnumDeclaration => Answer(Unknown)
  }

  function Expand(w: World, c: Call): Move {
    if c.steps == [] then Answer(Found)
    else if c.TypeCall? then ExpandType(w, c.file, c.t, c.steps)
    else if c.id in w.decls then ExpandDecl(w, c.id, c.steps)
    else Answer(Unknown)
  }

  function PartsOf(m: Move): seq<Part> {
    if m.Answer? then [] else m.parts
  }

  // ---------------------------------------------------------------- meaning of a call, round by round

  ghost predicate HasCall(w: World, n: nat, c: Call) {
    match c
    case TypeCall(file, t, steps) => HasType(w, n, file, t, steps)
    case DeclCall(id, steps) => if id in w.decls then HasDecl(w, n, id, steps) else steps == []
  }

  ghost predicate LacksCall(w: World, n: nat, c: Call) {
    match c
    case TypeCall(file, t, steps) => LacksType(w, n, file, t, steps)
    case DeclCall(id, steps) => id in w.decls && LacksDecl(w, n, id, steps)
  }

  ghost predicate HasPart(w: World, n: nat, p: Part) {
    p.Visit? && HasCall(w, n, p.call)
  }

  ghost predicate LacksPart(w: World, n: nat, p: Part) {
    p.Visit? && LacksCall(w, n, p.call)
  }

  ghost predicate HasMove(w: World, n: nat, m: Move) {
    match m
    case Answer(v) => v == Found
    case AnyOf(parts) => exists i :: 0 <= i < |parts| && HasPart(w, n, parts[i])
    case AllOf(parts) => forall i :: 0 <= i < |parts| ==> HasPart(w, n, parts[i])
  }

  ghost predicate LacksMove(w: World, n: nat, m: Move) {
    match m
    case Answer(v) => v == Missing
    case AnyOf(parts) => forall i :: 0 <= i < |parts| ==> LacksPart(w, n, parts[i])
    case AllOf(parts) => parts != [] && forall i :: 0 <= i < |parts| ==> LacksPart(w, n, parts[i])
  }

  lemma FollowMeans(w: World, n: nat, c: Call)
    ensures HasMove(w, n, Follow(c)) <==> HasCall(w, n, c)
    ensures LacksMove(w, n, Follow(c)) <==> LacksCall(w, n, c)
  {
    assert Follow(c).parts[0] == Visit(c);
    assert HasMove(w, n, Follow(c)) <==> HasPart(w, n, Follow(c).parts[0]);
    assert LacksMove(w, n, Follow(c)) <==> LacksPart(w, n, Follow(c).parts[0]);
  }

  lemma FollowsMean(w: World, n: nat)
    ensures forall c {:trigger Follow(c)} ::
              && (HasMove(w, n, Follow(c)) <==> HasCall(w, n, c))
              && (LacksMove(w, n, Follow(c)) <==> LacksCall(w, n, c))
  {
    forall c
      ensures HasMove(w, n, Follow(c)) <==> HasCall(w, n, c)
      ensures LacksMove(w, n, Follow(c)) <==> LacksCall(w, n, c)
    {
      FollowMeans(w, n, c);
    }
  }

  lemma TypePartsMean(w: World, n: nat, file: string, types: seq<TypeNode>, steps: seq<Step>)
    ensures var parts := TypeParts(file, types, steps);
            && ((exists p :: p in types && HasType(w, n, file, p, steps)) <==> HasMove(w, n, AnyOf(parts)))
            && ((forall p :: p in types ==> HasType(w, n, file, p, steps)) <==> HasMove(w, n, AllOf(parts)))
            && ((forall p :: p in types ==> LacksType(w, n, file, p, steps)) <==> LacksMove(w, n, AnyOf(parts)))
  {
    var parts := TypeParts(file, types, steps);
    forall i | 0 <= i < |types|
      ensures HasPart(w, n, parts[i]) <==> HasType(w, n, file, types[i], steps)
      ensures LacksPart(w, n, parts[i]) <==> LacksType(w, n, file, types[i], steps)
    {
    }
    hide HasType, LacksType, HasPart, LacksPart, TypeParts;
    if p :| p in types && HasType(w, n, file, p, steps) {
      var i :| 0 <= i < |types| && types[i] == p;
      assert HasPart(w, n, parts[i]);
    }
    forall i | 0 <= i < |types| ensures types[i] in types {
    }
  }

  lemma BasePartsMean(w: World, n: nat, file: string, bases: seq<Heritage>, steps: seq<Step>)
    ensures var parts := BaseParts(w, file, bases, steps);
            && ((exists b :: b in bases && HasPart(w, n, BasePart(w, file, b, steps))) <==> HasMove(w, n, AnyOf(parts)))
            && ((forall b :: b in bases ==> LacksPart(w, n, BasePart(w, file, b, steps))) <==>
                LacksMove(w, n, AnyOf(parts)))
  {
    hide HasPart, LacksPart, BasePart;
    var parts := BaseParts(w, file, bases, steps);
    if b :| b in bases && HasPart(w, n, BasePart(w, file, b, steps)) {
      var i :| 0 <= i < |bases| && bases[i] == b;
      assert HasPart(w, n, parts[i]);
    }
    forall i | 0 <= i < |bases| ensures bases[i] in bases {
    }
  }

  lemma LiteralMeansMove(w: World, n: nat, file: string, members: seq<TypeElement>, steps: seq<Step>)
    requires n > 0 && steps != []
    ensures HasType(w, n, file, LiteralType(members), steps)
            <==> HasMove(w, n - 1, ExpandType(w, file, LiteralType(members), steps))
    ensures LacksType(w, n, file, LiteralType(members), steps)
            <==> LacksMove(w, n - 1, ExpandType(w, file, LiteralType(members), steps))
  {
    hide DirectMember;
    FollowsMean(w, n - 1);
  }

  lemma ReferenceMeansMove(w: World, n: nat, file: string, t: TypeNode, steps: seq<Step>)
    requires n > 0 && steps != [] && t.ReferenceType?
    ensures HasType(w, n, file, t, steps) <==> HasMove(w, n - 1, ExpandType(w, file, t, steps))
    ensures LacksType(w, n, file, t, steps) <==> LacksMove(w, n - 1, ExpandType(w, file, t, steps))
  {
    hide PassesThrough, NamesArray, DeclForTypeName;
    FollowsMean(w, n - 1);
  }

  lemma BranchesMeanMove(w: World, n: nat, file: string, t: TypeNode, steps: seq<Step>)
    requires n > 0 && steps != [] && (t.IntersectionType? || t.UnionType?)
    ensures HasType(w, n, file, t, steps) <==> HasMove(w, n - 1, ExpandType(w, file, t, steps))
    ensures LacksType(w, n, file, t, steps) <==> LacksMove(w, n - 1, ExpandType(w, file, t, steps))
  {
    TypePartsMean(w, n - 1, file, t.parts, steps);
  }

  lemma OtherNodesMeanMove(w: World, n: nat, file: string, t: TypeNode, steps: seq<Step>)
    requires n > 0 && steps != []
    requires !t.LiteralType? && !t.IntersectionType? && !t.UnionType? && !t.ReferenceType?
    ensures HasType(w, n, file, t, steps) <==> HasMove(w, n - 1, ExpandType(w, file, t, steps))
    ensures LacksType(w, n, file, t, steps) <==> LacksMove(w, n - 1, ExpandType(w, file, t, steps))
  {
    FollowsMean(w, n - 1);
  }

  lemma TypeMeansMove(w: World, n: nat, file: string, t: TypeNode, steps: seq<Step>)
    requires n > 0 && steps != []
    ensures HasType(w, n, file, t, steps) <==> HasMove(w, n - 1, ExpandType(w, file, t, steps))
    ensures LacksType(w, n, file, t, steps) <==> LacksMove(w, n - 1, ExpandType(w, file, t, steps))
  {
    hide HasType, LacksType, HasMove, LacksMove, ExpandType;
    match t
    case LiteralType(members) => LiteralMeansMove(w, n, file, members, steps);
    case IntersectionType(_) => BranchesMeanMove(w, n, file, t, steps);
    case UnionType(_) => BranchesMeanMove(w, n, file, t, steps);
    case ReferenceType(_, _, _) => ReferenceMeansMove(w, n, file, t, steps);
    case _ => OtherNodesMeanMove(w, n, file, t, steps);
  }

  lemma DeclMeansMove(w: World, n: nat, id: DeclId, steps: seq<Step>)
    requires n > 0 && steps != [] && id in w.decls
    ensures HasDecl(w, n, id, steps) <==> HasMove(w, n - 1, ExpandDecl(w, id, steps))
    ensures LacksDecl(w, n, id, steps) <==> LacksMove(w, n - 1, ExpandDecl(w, id, steps))
  {
    match w.decls[id]
    case InterfaceDeclaration(members, bases) =>
      if steps[0].Member? {
        var m := DirectMember(members, steps[0].name);
        if m.Some? {
          FollowsMean(w, n - 1);
        } else {
          BasePartsMean(w, n - 1, id.file, bases, steps);
        }
      }
    case AliasDeclaration(t) => FollowMeans(w, n - 1, TypeCall(id.file, t, steps));
    case EnumDeclaration =>
  }

  /** The inductive meaning is what one round of the walk says about the rest. */
  lemma MeaningIsOneRound(w: World, n: nat, c: Call)
    ensures HasCall(w, n, c) <==> c.steps == [] || (n > 0 && HasMove(w, n - 1, Expand(w, c)))
    ensures LacksCall(w, n, c) <==> c.steps != [] && n > 0 && LacksMove(w, n - 1, Expand(w, c))
  {
    if c.steps != [] && n > 0 {
      if c.TypeCall? {
        TypeMeansMove(w, n, c.file, c.t, c.steps);
      } else if c.id in w.decls {
        DeclMeansMove(w, n, c.id, c.steps);
      }
    }
  }

  /** Deeper derivations settle at least as much. */
  lemma {:induction false} MeaningIsMonotone(w: World, n: nat, m: nat, c: Call)
    requires n <= m
    ensures HasCall(w, n, c) ==> HasCall(w, m, c)
    ensures LacksCall(w, n, c) ==> LacksCall(w, m, c)
    decreases n
  {
    MeaningIsOneRound(w, n, c);
    MeaningIsOneRound(w, m, c);
    hide HasCall, LacksCall, Expand;
    if n > 0 {
      var parts := PartsOf(Expand(w, c));
      forall i | 0 <= i < |parts|
        ensures HasPart(w, n - 1, parts[i]) ==> HasPart(w, m - 1, parts[i])
        ensures LacksPart(w, n - 1, parts[i]) ==> LacksPart(w, m - 1, parts[i])
      {
        if parts[i].Visit? {
          MeaningIsMonotone(w, n - 1, m - 1, parts[i].call);
        }
      }
    }
  }

  /** The two definite answers exclude each other, whatever the derivations. */
  lemma {:induction false} VerdictsExclude(w: World, n: nat, m: nat, c: Call)
    ensures !(HasCall(w, n, c) && LacksCall(w, m, c))
    decreases n
  {
    MeaningIsOneRound(w, n, c);
    MeaningIsOneRound(w, m, c);
    hide HasCall, LacksCall, Expand;
    if n > 0 && m > 0 {
      var parts := PartsOf(Expand(w, c));
      forall i | 0 <= i < |parts| ensures !(HasPart(w, n - 1, parts[i]) && LacksPart(w, m - 1, parts[i])) {
        if parts[i].Visit? {
          VerdictsExclude(w, n - 1, m - 1, parts[i].call);
        }
      }
      assert Expand(w, c).AllOf? && parts != [] ==>
               !(HasPart(w, n - 1, parts[0]) && LacksPart(w, m - 1, parts[0]));
    }
  }

  // ---------------------------------------------------------------- what the source's own terms say

  /** A property declared anywhere among the members is there; a name neither declared nor inherited is missing. */
  lemma DeclaredIsHad(w: World, id: DeclId, members: seq<TypeElement>, bases: seq<Heritage>, name: string)
    requires id in w.decls && w.decls[id] == InterfaceDeclaration(members, bases)
    ensures (exists m :: m in members && m.PropertySignature? && m.name == name) ==> HasDecl(w, 2, id, [Member(name)])
    ensures bases == [] && (forall m :: m in members && m.PropertySignature? ==> m.name != name)
            ==> LacksDecl(w, 1, id, [Member(name)])
  {
    DirectMemberIsTheFirst(members, name);
  }

  /** A member not declared directly is looked up in every base the file resolves. */
  lemma InheritedIsHad(
      w: World, n: nat, id: DeclId, members: seq<TypeElement>, bases: seq<Heritage>, base: string, d: DeclId,
      steps: seq<Step>)
    requires id in w.decls && w.decls[id] == InterfaceDeclaration(members, bases) && NamedBase(base) in bases
    requires (id.file, base) in w.names && w.names[(id.file, base)] == d && d in w.decls
    requires steps != [] && steps[0].Member?
    requires forall m :: m in members && m.PropertySignature? ==> m.name != steps[0].name
    ensures HasDecl(w, n, d, steps) ==> HasDecl(w, n + 1, id, steps)
    ensures bases == [NamedBase(base)] ==> (LacksDecl(w, n, d, steps) ==> LacksDecl(w, n + 1, id, steps))
  {
    DirectMemberIsTheFirst(members, steps[0].name);
    assert BaseDecl(w, id.file, NamedBase(base)) == Some(d);
  }

  /** The four wrappers have what their argument has, and `Array` and `ReadonlyArray` what an array of it has. */
  lemma WrappersMeanTheirArgument(
      w: World, n: nat, file: string, qualified: bool, t: TypeNode, more: seq<TypeNode>, steps: seq<Step>)
    requires steps != []
    ensures forall head :: head in {"Partial", "Required", "Readonly", "NonNullable"} ==>
              && (HasType(w, n + 1, file, ReferenceType(head, qualified, [t] + more), steps) <==>
                  HasType(w, n, file, t, steps))
              && (LacksType(w, n + 1, file, ReferenceType(head, qualified, [t] + more), steps) <==>
                  LacksType(w, n, file, t, steps))
    ensures forall head :: head in {"Array", "ReadonlyArray"} ==>
              && (HasType(w, n, file, ReferenceType(head, qualified, [t] + more), steps) <==>
                  HasType(w, n, file, ArrayType(t), steps))
              && (LacksType(w, n, file, ReferenceType(head, qualified, [t] + more), steps)
                  <==> LacksType(w, n, file, ArrayType(t), steps))
  {
  }

  /** Every other unqualified name means the declaration the file resolves it to, whatever its arguments. */
  lemma OtherNamesMeanTheirDeclaration(
      w: World, n: nat, file: string, head: string, args: seq<TypeNode>, d: DeclId, steps: seq<Step>)
    requires head !in {"Partial", "Required", "Readonly", "NonNullable", "Array", "ReadonlyArray"} || args == []
    requires steps != [] && (file, head) in w.names && w.names[(file, head)] == d && d in w.decls
    ensures HasType(w, n + 1, file, ReferenceType(head, false, args), steps) <==> HasDecl(w, n, d, steps)
    ensures LacksType(w, n + 1, file, ReferenceType(head, false, args), steps) <==> LacksDecl(w, n, d, steps)
  {
  }
}

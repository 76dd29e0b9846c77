/**
 From a type name to its declaration (docker/support/scripts/gen-config-catalog.ts): local
 declarations first, then imports, whose re-export chains are searched depth first with a shared
 visited set.  Re-exports may form cycles; the search must still miss nothing.
 */
module TypeNameResolution {
  import opened Wrappers

  type File = string

  /** A name looked up among the exports of a file. */
  datatype Key = Key(file: File, name: string)

  datatype Element = Element(name: string, propertyName: Option<string>)

  /** `export * from` and `export {…} from` with a package-relative `.ts` target; everything else is passed over. */
  datatype Statement =
    | ExportAll(target: File)
    | ExportNamed(elements: seq<Element>, target: File)
    | Other

  datatype Import =
    | Relative(target: File, isTs: bool, imported: string)
    | Package(entry: Option<File>, imported: string)

  datatype Context = Context(declared: set<string>, imports: map<string, Import>, statements: seq<Statement>)

  /** The readable files. */
  type Program = map<File, Context>

  datatype LoadError = Unreadable(file: File)

  /** The name an export element stands for in the file it re-exports from. */
  function Target(e: Element): string {
    if e.propertyName.Some? then e.propertyName.value else e.name
  }

  function FindElement(elements: seq<Element>, name: string): Option<string> {
    if elements == [] then None
    else if elements[0].name == name then
      Some(Target(elements[0]))
    else FindElement(elements[1..], name)
  }

  /** Where a statement sends the search for a name, if anywhere. */
  function Forward(statement: Statement, name: string): Option<Key> {
    match statement
    case ExportAll(target) => Some(Key(target, name))
    case ExportNamed(elements, target) =>
      var found := FindElement(elements, name);
      if found.Some? then Some(Key(target, found.value)) else None
    case Other => None
  }

  // ---------------------------------------------------------------- meaning

  predicate Declares(program: Program, k: Key) {
    k.file in program && k.name in program[k.file].declared
  }

  ghost predicate Forwards(program: Program, a: Key, b: Key) {
    a.file in program &&
    var statements := program[a.file].statements;
    exists i :: 0 <= i < |statements| && Forward(statements[i], a.name) == Some(b)
  }

  /** A chain of re-exports; only its end may be a declaration. */
  ghost predicate Chain(program: Program, path: seq<Key>) {
    && path != []
    && (forall i :: 0 <= i < |path| - 1 ==> Forwards(program, path[i], path[i + 1]) && !Declares(program, path[i]))
  }

  ghost predicate ChainTo(program: Program, path: seq<Key>, a: Key, b: Key) {
    Chain(program, path) && path[0] == a && path[|path| - 1] == b
  }

  ghost predicate Reaches(program: Program, a: Key, b: Key) {
    exists path :: ChainTo(program, path, a, b)
  }

  /** The name is exported by the file as that declaration. */
  ghost predicate ExportedAs(program: Program, k: Key, d: Key) {
    Reaches(program, k, d) && Declares(program, d)
  }

  // ---------------------------------------------------------------- which declaration

  /** The file forwards the name to x by an earlier statement than the first one that forwards it to b. */
  ghost predicate Earlier(program: Program, a: Key, x: Key, b: Key) {
    a.file in program &&
    var statements := program[a.file].statements;
    exists j :: 0 <= j < |statements| && Forward(statements[j], a.name) == Some(x)
                && forall i :: 0 <= i <= j ==> Forward(statements[i], a.name) != Some(b)
  }

  ghost predicate Meets(path: seq<Key>, keys: seq<Key>) {
    exists k :: k in path && k in keys
  }

  /** Where a search ends: at a declaration, or at a file that cannot be read. */
  predicate Stops(program: Program, k: Key) {
    Declares(program, k) || k.file !in program
  }

  /** Every chain from x to where a search ends comes back to one of the keys. */
  ghost predicate OnlyBackThrough(program: Program, x: Key, keys: seq<Key>) {
    forall path, d :: ChainTo(program, path, x, d) && Stops(program, d) ==> Meets(path, keys)
  }

  /**
   The chain leads to where a search ends without repeating a key or meeting the stack, and at each
   of its keys every earlier statement leads to such a place only back through the keys so far.
   */
  ghost predicate FirstChain(program: Program, stack: seq<Key>, path: seq<Key>)
    decreases |path|
  {
    && path != [] && path[0] !in stack
    && if |path| == 1 then Stops(program, path[0])
       else
         && !Declares(program, path[0]) && Forwards(program, path[0], path[1])
         && (forall x :: Earlier(program, path[0], x, path[1]) ==> OnlyBackThrough(program, x, stack + [path[0]]))
         && FirstChain(program, stack + [path[0]], path[1..])
  }

  /** Where the first chain, in statement order, that repeats no key ends. */
  ghost predicate FirstStop(program: Program, k: Key, d: Key) {
    exists path :: FirstChain(program, [], path) && path[0] == k && path[|path| - 1] == d
  }

  /** It ends at that declaration. */
  ghost predicate FirstExport(program: Program, k: Key, d: Key) {
    FirstStop(program, k, d) && Declares(program, d)
  }

  /** It ends at a name in that file, which cannot be read. */
  ghost predicate FirstUnreadable(program: Program, k: Key, file: File) {
    file !in program && exists b: Key :: b.file == file && FirstStop(program, k, b)
  }

  lemma {:induction false} FirstChainIsAChain(program: Program, stack: seq<Key>, path: seq<Key>)
    requires FirstChain(program, stack, path)
    ensures ChainTo(program, path, path[0], path[|path| - 1]) && Stops(program, path[|path| - 1])
    ensures !Meets(path, stack)
    decreases |path|
  {
    if |path| > 1 {
      var rest := path[1..];
      FirstChainIsAChain(program, stack + [path[0]], rest);
      forall i | 0 <= i < |path| - 1 ensures Forwards(program, path[i], path[i + 1]) && !Declares(program, path[i]) {
        if i > 0 {
          assert rest[i - 1] == path[i] && rest[i] == path[i + 1];
        }
      }
      forall k | k in rest ensures k !in stack {
        assert k !in stack + [path[0]];
      }
      assert path == [path[0]] + rest;
    }
  }

  /** What a file forwards to: by an earlier statement one way or the other, or the same key. */
  lemma OneIsEarlier(program: Program, a: Key, x: Key, y: Key)
    requires Forwards(program, a, x) && Forwards(program, a, y) && x != y
    ensures Earlier(program, a, x, y) || Earlier(program, a, y, x)
  {
    hide Forward;
    var i := FirstForward(program, a, x);
    var j := FirstForward(program, a, y);
    if i < j {
      ForwardedEarlier(program, a, x, y, i);
    } else {
      ForwardedEarlier(program, a, y, x, j);
    }
  }

  lemma ForwardedEarlier(program: Program, a: Key, x: Key, y: Key, i: nat)
    requires a.file in program && i < |program[a.file].statements| && x != y
    requires Forward(program[a.file].statements[i], a.name) == Some(x)
    requires forall j :: 0 <= j < i ==> Forward(program[a.file].statements[j], a.name) != Some(y)
    ensures Earlier(program, a, x, y)
  {
    hide Forward;
  }

  lemma FirstForward(program: Program, a: Key, x: Key) returns (i: nat)
    requires Forwards(program, a, x)
    ensures i < |program[a.file].statements| && Forward(program[a.file].statements[i], a.name) == Some(x)
    ensures forall j :: 0 <= j < i ==> Forward(program[a.file].statements[j], a.name) != Some(x)
  {
    var statements := program[a.file].statements;
    i := 0;
    while Forward(statements[i], a.name) != Some(x)
      invariant i < |statements| && forall j :: 0 <= j < i ==> Forward(statements[j], a.name) != Some(x)
      invariant exists j :: i <= j < |statements| && Forward(statements[j], a.name) == Some(x)
      decreases |statements| - i
    {
      i := i + 1;
    }
  }

  /** There is only one such chain, so the code's choice is determined by the program. */
  lemma {:induction false} FirstChainsAgree(program: Program, stack: seq<Key>, p: seq<Key>, q: seq<Key>)
    requires FirstChain(program, stack, p) && FirstChain(program, stack, q) && p[0] == q[0]
    ensures p == q
    decreases |p|
  {
    if |p| == 1 {
      assert |q| == 1;
    } else {
      assert |q| > 1;
      if p[1] == q[1] {
        FirstChainsAgree(program, stack + [p[0]], p[1..], q[1..]);
        assert p == [p[0]] + p[1..] && q == [q[0]] + q[1..];
      } else {
        OneIsEarlier(program, p[0], p[1], q[1]);
        EarlierExcluded(program, stack + [p[0]], p[1..]);
        EarlierExcluded(program, stack + [p[0]], q[1..]);
      }
    }
  }

  lemma EarlierExcluded(program: Program, stack: seq<Key>, path: seq<Key>)
    requires FirstChain(program, stack, path)
    ensures !OnlyBackThrough(program, path[0], stack)
  {
    FirstChainIsAChain(program, stack, path);
  }

  lemma FirstExportsAreExports(program: Program, k: Key)
    ensures forall d :: FirstExport(program, k, d) ==> ExportedAs(program, k, d)
  {
    forall d | FirstExport(program, k, d) ensures ExportedAs(program, k, d) {
      var path :| FirstChain(program, [], path) && path[0] == k && path[|path| - 1] == d;
      FirstChainIsAChain(program, [], path);
    }
  }

  /** There is at most one such end, so at most one declaration is the first export. */
  lemma FirstStopIsUnique(program: Program, k: Key, d: Key, e: Key)
    requires FirstStop(program, k, d) && FirstStop(program, k, e)
    ensures d == e
  {
    var p :| FirstChain(program, [], p) && p[0] == k && p[|p| - 1] == d;
    var q :| FirstChain(program, [], q) && q[0] == k && q[|q| - 1] == e;
    FirstChainsAgree(program, [], p, q);
  }

  // ---------------------------------------------------------------- the search

  ghost function LookedUpNames(program: Program): set<string> {
    set f, s, e | f in program.Keys && s in program[f].statements && s.ExportNamed? && e in s.elements ::
      Target(e)
  }

  /** Every key a search for the name can come across in a readable file. */
  ghost function Universe(program: Program, name: string): set<Key> {
    set f, n | f in program.Keys && n in LookedUpNames(program) + {name} :: Key(f, n)
  }

  lemma {:induction false} FoundElementIsListed(elements: seq<Element>, name: string)
    requires FindElement(elements, name).Some?
    ensures exists e :: e in elements && FindElement(elements, name).value == Target(e)
  {
    if elements[0].name == name {
      assert elements[0] in elements;
    } else {
      FoundElementIsListed(elements[1..], name);
      var e :| e in elements[1..] && FindElement(elements[1..], name).value == Target(e);
      assert e in elements;
    }
  }

  lemma ForwardStaysInUniverse(program: Program, name: string, k: Key, i: nat)
    requires k in Universe(program, name) && i < |program[k.file].statements|
    ensures var next := Forward(program[k.file].statements[i], k.name);
            next.Some? && next.value.file in program ==> next.value in Universe(program, name)
  {
    var s := program[k.file].statements[i];
    assert s in program[k.file].statements;
    if s.ExportNamed? && FindElement(s.elements, k.name).Some? {
      FoundElementIsListed(s.elements, k.name);
    }
  }

  class ExportSearch {
    const program: Program
    /** The name the search started with. */
    ghost const root: string
    var seen: set<Key>

    constructor (program: Program, root: string)
      ensures this.program == program && this.root == root && seen == {}
    {
      this.program, this.root, seen := program, root, {};
    }

    /** Finished keys: no declaration, readable, and nothing they forward to is unseen. */
    ghost predicate Exhausted(k: Key)
      reads this
    {
      !Stops(program, k) && forall next :: Forwards(program, k, next) ==> next in seen
    }

    /** Apart from the keys being searched, everything visited is finished. */
    ghost predicate Valid(stack: seq<Key>)
      reads this
    {
      && (forall k :: k in stack ==> k in seen && k.file in program)
      && (forall k :: k in seen && k !in stack ==> Exhausted(k))
    }

    /** From a visited key every place where a search ends lies back through the keys being searched. */
    lemma VisitedLeadsBack(stack: seq<Key>, x: Key)
      requires Valid(stack) && x in seen
      ensures OnlyBackThrough(program, x, stack)
    {
      forall path, d | ChainTo(program, path, x, d) && Stops(program, d) ensures Meets(path, stack) {
        ChainLeadsBack(stack, path);
      }
    }

    lemma {:induction false} ChainLeadsBack(stack: seq<Key>, path: seq<Key>)
      requires Valid(stack) && Chain(program, path) && path[0] in seen && Stops(program, path[|path| - 1])
      ensures Meets(path, stack)
      decreases |path|
    {
      if path[0] in stack {
        assert path[0] in path;
      } else {
        assert Exhausted(path[0]);
        assert Forwards(program, path[0], path[0 + 1]);
        var rest := path[1..];
        forall i | 0 <= i < |rest| - 1 ensures Forwards(program, rest[i], rest[i + 1]) && !Declares(program, rest[i]) {
          assert rest[i] == path[i + 1] && rest[i + 1] == path[i + 1 + 1];
        }
        ChainLeadsBack(stack, rest);
        var k :| k in rest && k in stack;
        assert k in path;
      }
    }

    /** Every statement before the i-th one leads back, when it leads anywhere. */
    ghost predicate LedBack(stack: seq<Key>, k: Key, i: nat)
      requires k.file in program && i <= |program[k.file].statements|
    {
      forall j :: 0 <= j < i && Forward(program[k.file].statements[j], k.name).Some? ==>
        OnlyBackThrough(program, Forward(program[k.file].statements[j], k.name).value, stack)
    }

    lemma HitIsFirst(stack: seq<Key>, k: Key, i: nat, path: seq<Key>)
      requires k.file in program && i < |program[k.file].statements| && k !in stack && !Declares(program, k)
      requires LedBack(stack + [k], k, i) && FirstChain(program, stack + [k], path)
      requires Forward(program[k.file].statements[i], k.name) == Some(path[0])
      ensures FirstChain(program, stack, [k] + path)
    {
      var longer := [k] + path;
      assert longer[1..] == path && longer[1] == path[0];
      assert Forwards(program, k, path[0]);
    }

    /** The path is a first chain past the stack from one key to the other. */
    ghost predicate LeadsTo(stack: seq<Key>, path: seq<Key>, k: Key, d: Key) {
      FirstChain(program, stack, path) && path[0] == k && path[|path| - 1] == d
    }

    lemma HitLeadsTo(stack: seq<Key>, k: Key, i: nat, path: seq<Key>, next: Key, d: Key)
      requires k.file in program && i < |program[k.file].statements| && k !in stack && !Declares(program, k)
      requires LedBack(stack + [k], k, i) && LeadsTo(stack + [k], path, next, d)
      requires Forward(program[k.file].statements[i], k.name) == Some(next)
      ensures LeadsTo(stack, [k] + path, k, d)
    {
      HitIsFirst(stack, k, i, path);
    }

    lemma StopLeadsTo(stack: seq<Key>, k: Key)
      requires Valid(stack) && Stops(program, k) && k !in stack
      ensures LeadsTo(stack, [k], k, k)
    {
    }

    /**
     A hit and an error end a first chain past the stack, at the declaration found and at the
     unreadable file; a miss leaves the key finished.
     */
    method FindExportedTypeDecl(k: Key, ghost stack: seq<Key>)
      returns (r: Result<Option<Key>, LoadError>, ghost path: seq<Key>)
      requires k in Universe(program, root) && Valid(stack)
      modifies this
      ensures old(seen) <= seen
      ensures r.Failure? ==>
                r.error.file !in program && exists b: Key :: b.file == r.error.file && LeadsTo(stack, path, k, b)
      ensures r.Success? && r.value.Some? ==> LeadsTo(stack, path, k, r.value.value) && Declares(program, r.value.value)
      ensures r.Success? && r.value.None? ==> Valid(stack) && k in seen
      decreases Universe(program, root) - seen
    {
      path := [];
      if k in seen {
        return Success(None), [];
      }
      seen := seen + {k};
      if k.name in program[k.file].declared {
        return Success(Some(k)), [k];
      }
      var statements := program[k.file].statements;
      ghost var inner := stack + [k];
      for i := 0 to |statements|
        invariant old(seen) + {k} <= seen && Valid(inner) && LedBack(inner, k, i)
        invariant forall j :: 0 <= j < i && Forward(statements[j], k.name).Some? ==>
            Forward(statements[j], k.name).value in seen
      {
        hide FirstChain, OnlyBackThrough, Valid, Universe, LedBack, Exhausted, Declares, LeadsTo, Stops;
        var lookFor := Forward(statements[i], k.name);
        if lookFor.Some? {
          var next := lookFor.value;
          assert Forwards(program, k, next);
          if next.file !in program {
            NotSearched(inner, next);
            StopLeadsTo(inner, next);
            HitLeadsTo(stack, k, i, [next], next, next);
            return Failure(Unreadable(next.file)), [k] + [next];
          }
          ForwardStaysInUniverse(program, root, k, i);
          var hit;
          hit, path := FindExportedTypeDecl(next, inner);
          if hit.Failure? {
            ghost var b: Key :| b.file == hit.error.file && LeadsTo(inner, path, next, b);
            HitLeadsTo(stack, k, i, path, next, b);
            path := [k] + path;
            return hit, path;
          }
          if hit.value.Some? {
            HitLeadsTo(stack, k, i, path, next, hit.value.value);
            path := [k] + path;
            return hit, path;
          }
          VisitedLeadsBack(inner, next);
        }
      }
      assert Exhausted(k);
      return Success(None), [];
    }

    lemma NotSearched(stack: seq<Key>, k: Key)
      requires Valid(stack) && k.file !in program
      ensures k !in stack && Stops(program, k)
    {
    }
  }

  /** Which outcome the search has: where the first chain ends, or none when no chain ends anywhere. */
  ghost predicate Outcome(program: Program, k: Key, r: Result<Option<Key>, LoadError>) {
    match r
    case Failure(error) => FirstUnreadable(program, k, error.file)
    case Success(Some(d)) => FirstExport(program, k, d)
    case Success(None) => forall d :: Reaches(program, k, d) ==> !Stops(program, d)
  }

  /** The program determines the outcome. */
  lemma OutcomeIsUnique(
      program: Program, k: Key, r1: Result<Option<Key>, LoadError>, r2: Result<Option<Key>, LoadError>)
    requires Outcome(program, k, r1) && Outcome(program, k, r2)
    ensures r1 == r2
  {
    hide FirstStop, Reaches;
    forall d, e | FirstStop(program, k, d) && FirstStop(program, k, e) ensures d == e {
      FirstStopIsUnique(program, k, d, e);
    }
    forall d | FirstStop(program, k, d) ensures Reaches(program, k, d) && Stops(program, d) {
      FirstStopIsReached(program, k, d);
    }
  }

  lemma FirstStopIsReached(program: Program, k: Key, d: Key)
    requires FirstStop(program, k, d)
    ensures Reaches(program, k, d) && Stops(program, d)
  {
    var path :| FirstChain(program, [], path) && path[0] == k && path[|path| - 1] == d;
    FirstChainIsAChain(program, [], path);
  }

  /**
   Sound and complete on every re-export graph, and exact: the search ends where the first chain
   does, at a declaration or at an unreadable file, and finds nothing only when no chain ends.
   */
  method SearchExports(program: Program, k: Key) returns (r: Result<Option<Key>, LoadError>)
    requires k.file in program
    ensures Outcome(program, k, r)
  {
    var search := new ExportSearch(program, k.name);
    ghost var path;
    r, path := search.FindExportedTypeDecl(k, []);
    if r.Failure? || r.value.Some? {
      assert FirstStop(program, k, path[|path| - 1]);
    } else {
      search.VisitedLeadsBack([], k);
    }
  }

  // ---------------------------------------------------------------- what a re-export says

  /** The i-th element of the export is the first that exports the name. */
  ghost predicate FirstElement(elements: seq<Element>, name: string, i: nat) {
    i < |elements| && elements[i].name == name && forall j :: 0 <= j < i ==> elements[j].name != name
  }

  lemma {:induction false} FoundElementIsFirst(elements: seq<Element>, name: string)
    ensures forall i: nat :: FirstElement(elements, name, i) ==>
        FindElement(elements, name) == Some(Target(elements[i]))
    ensures (forall e :: e in elements ==> e.name != name) ==> FindElement(elements, name) == None
  {
    if elements != [] {
      FoundElementIsFirst(elements[1..], name);
      forall i: nat | FirstElement(elements, name, i) ensures FindElement(elements, name) == Some(Target(elements[i])) {
        if i > 0 {
          FirstElementBehind(elements, name, i);
        }
      }
    }
  }

  lemma FirstElementBehind(elements: seq<Element>, name: string, i: nat)
    requires FirstElement(elements, name, i) && i > 0
    ensures FirstElement(elements[1..], name, i - 1) && elements[0].name != name
  {
    forall j | 0 <= j < i - 1 ensures elements[1..][j].name != name {
      assert elements[1..][j] == elements[j + 1];
    }
  }

  /**
   `export { A as B } from` sends B to A in the target, `export { B } from` and `export * from` send
   it to B there, an export that does not list B and any other statement send it nowhere.
   */
  lemma StatementsForward(elements: seq<Element>, target: File, exported: string, original: string, i: nat)
    ensures FirstElement(elements, exported, i) && elements[i].propertyName == Some(original) ==>
              Forward(ExportNamed(elements, target), exported) == Some(Key(target, original))
    ensures FirstElement(elements, exported, i) && elements[i].propertyName == None ==>
              Forward(ExportNamed(elements, target), exported) == Some(Key(target, exported))
    ensures (forall e :: e in elements ==> e.name != exported) ==>
        Forward(ExportNamed(elements, target), exported) == None
    ensures Forward(ExportAll(target), exported) == Some(Key(target, exported))
    ensures Forward(Other, exported) == None
  {
    FoundElementIsFirst(elements, exported);
  }

  /** The statement does not export the name, by star or by list. */
  predicate Silent(statement: Statement, name: string) {
    match statement
    case ExportAll(_) => false
    case ExportNamed(elements, _) => forall e :: e in elements ==> e.name != name
    case Other => true
  }

  /** A renamed export is found under the name it has in the target file. */
  lemma RenamedExportIsFound(
      program: Program, file: File, elements: seq<Element>, target: File, exported: string, original: string, s: nat,
      i: nat)
    requires file in program && target in program && Key(target, original) != Key(file, exported)
    requires exported !in program[file].declared && original in program[target].declared
    requires s < |program[file].statements| && program[file].statements[s] == ExportNamed(elements, target)
    requires forall j :: 0 <= j < s ==> Silent(program[file].statements[j], exported)
    requires FirstElement(elements, exported, i) && elements[i].propertyName == Some(original)
    ensures forall r :: Outcome(program, Key(file, exported), r) <==> r == Success(Some(Key(target, original)))
  {
    var k, d, statements := Key(file, exported), Key(target, original), program[file].statements;
    StatementsForward(elements, target, exported, original, i);
    assert Forwards(program, k, d);
    forall j | 0 <= j < s ensures Forward(statements[j], exported) == None {
      SilentForwardsNothing(statements[j], exported);
    }
    assert [k, d][1..] == [d];
    assert FirstChain(program, [] + [k], [d]);
    forall x ensures !Earlier(program, k, x, d) {
    }
    assert FirstChain(program, [], [k, d]);
    var found: Result<Option<Key>, LoadError> := Success(Some(d));
    assert Outcome(program, k, found);
    forall r | Outcome(program, k, r) ensures r == found {
      OutcomeIsUnique(program, k, r, found);
    }
  }

  lemma SilentForwardsNothing(statement: Statement, name: string)
    requires Silent(statement, name)
    ensures Forward(statement, name) == None
  {
    if statement.ExportNamed? {
      FoundElementIsFirst(statement.elements, name);
    }
  }

  // ---------------------------------------------------------------- from a file's own scope

  /** What a name means inside a file, as a relation. */
  ghost predicate Means(program: Program, k: Key, d: Key)
    requires k.file in program
  {
    var here := program[k.file];
    if k.name in here.declared then d == k
    else if k.name !in here.imports then false
    else
      match here.imports[k.name]
      case Relative(target, isTs, imported) => isTs && FirstExport(program, Key(target, imported), d)
      case Package(entry, imported) => entry.Some? && FirstExport(program, Key(entry.value, imported), d)
  }

  /** The start of the search an import calls for, when it calls for one. */
  ghost predicate SearchStart(program: Program, k: Key, start: Key)
    requires k.file in program
  {
    && k.name !in program[k.file].declared && k.name in program[k.file].imports
    && match program[k.file].imports[k.name]
       case Relative(target, isTs, imported) => isTs && start == Key(target, imported)
       case Package(entry, imported) => entry == Some(start.file) && start.file in program && start.name == imported
  }

  /** None stands for "unknown": there is no such declaration within reach. */
  method DeclForTypeName(program: Program, k: Key) returns (r: Result<Option<Key>, LoadError>)
    requires k.file in program
    ensures r.Success? && r.value.Some? ==> Means(program, k, r.value.value)
    ensures r.Success? && r.value.None? ==> forall d :: !Means(program, k, d)
    ensures r.Failure? ==>
        exists start :: SearchStart(program, k, start) && FirstUnreadable(program, start, r.error.file)
  {
    var here := program[k.file];
    if k.name in here.declared {
      return Success(Some(k));
    }
    if k.name !in here.imports {
      return Success(None);
    }
    match here.imports[k.name]
    case Relative(target, isTs, imported) =>
      if !isTs {
        return Success(None);
      }
      ghost var start := Key(target, imported);
      assert SearchStart(program, k, start);
      if target !in program {
        assert FirstChain(program, [], [start]);
        assert FirstStop(program, start, start);
        return Failure(Unreadable(target));
      }
      r := SearchExports(program, Key(target, imported));
      FirstExportsAreExports(program, start);
    case Package(entry, imported) =>
      if entry.None? {
        return Success(None);
      }
      ghost var start := Key(entry.value, imported);
      FirstExportsAreExports(program, start);
      if entry.value !in program {
        UnreadableExportsNothing(program, start);
        return Success(None);
      }
      assert SearchStart(program, k, start);
      r := SearchExports(program, Key(entry.value, imported));
  }

  lemma UnreadableExportsNothing(program: Program, k: Key)
    requires k.file !in program
    ensures forall d :: !ExportedAs(program, k, d)
  {
    forall path, d | ChainTo(program, path, k, d) ensures d == k {
      assert |path| > 1 ==> Forwards(program, path[0], path[0 + 1]);
    }
  }
}

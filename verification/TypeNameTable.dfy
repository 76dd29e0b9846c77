/**
 The table of names that the walk through declared types reads
 (docker/support/scripts/gen-config-catalog.ts), as the search through imports and re-exports
 fills it.
 */
module TypeNameTable {
  import opened Wrappers
  import Types = TypeMeaning
  import opened TypeNameResolution

  /** Where a declaration stands, by the file and name that declare it. */
  type Places = Key -> Types.DeclId

  lemma MeaningIsUnique(program: Program, k: Key, d: Key, e: Key)
    requires k.file in program && Means(program, k, d) && Means(program, k, e)
    ensures d == e
  {
    var here := program[k.file];
    if k.name !in here.declared {
      match here.imports[k.name]
      case Relative(target, _, imported) => FirstStopIsUnique(program, Key(target, imported), d, e);
      case Package(entry, imported) => FirstStopIsUnique(program, Key(entry.value, imported), d, e);
    }
  }

  ghost predicate Resolves(program: Program, k: Key) {
    k.file in program && exists d :: Means(program, k, d)
  }

  ghost function Meaning(program: Program, k: Key): (d: Key)
    requires Resolves(program, k)
    ensures Means(program, k, d)
  {
    var d :| Means(program, k, d);
    d
  }

  /** The names a file can use: what it declares and what it imports. */
  ghost function Scope(context: Context): set<string> {
    context.declared + context.imports.Keys
  }

  /** For every file and every name in its scope that means something, the place of what it means. */
  ghost function NameTable(program: Program, places: Places): map<(string, string), Types.DeclId> {
    map f, n | f in program.Keys && n in Scope(program[f]) && Resolves(program, Key(f, n)) ::
      (f, n) := places(Meaning(program, Key(f, n)))
  }

  /** The world holds the declarations at their places and resolves names by that table. */
  ghost predicate WorldOf(program: Program, places: Places, w: Types.World) {
    && w.names == NameTable(program, places)
    && forall d :: Declares(program, d) ==> places(d) in w.decls
  }

  lemma MeaningIsDeclared(program: Program, k: Key, d: Key)
    requires k.file in program && Means(program, k, d)
    ensures Declares(program, d) && k.name in Scope(program[k.file])
  {
    var here := program[k.file];
    if k.name !in here.declared {
      match here.imports[k.name]
      case Relative(target, _, imported) => FirstExportsAreExports(program, Key(target, imported));
      case Package(entry, imported) => FirstExportsAreExports(program, Key(entry.value, imported));
    }
  }

  /**
   In such a world the walk reads exactly what a name means: its declaration's place, or nothing when it means
   nothing.
   */
  lemma WalkReadsTheMeaning(program: Program, places: Places, w: Types.World, k: Key)
    requires WorldOf(program, places, w) && k.file in program
    ensures forall d :: Means(program, k, d) ==> Types.DeclForTypeName(w, k.file, k.name) == Some(places(d))
    ensures (forall d :: !Means(program, k, d)) ==> Types.DeclForTypeName(w, k.file, k.name) == None
  {
    hide Means;
    assert Key(k.file, k.name) == k;
    forall d | Means(program, k, d) ensures Types.DeclForTypeName(w, k.file, k.name) == Some(places(d)) {
      MeaningIsDeclared(program, k, d);
      assert Resolves(program, k);
      MeaningIsUnique(program, k, d, Meaning(program, k));
      assert (k.file, k.name) in w.names;
    }
  }

  /** So wherever the search ends without an unreadable file, the walk sees what the search returns. */
  method ResolveInWorld(program: Program, ghost places: Places, ghost w: Types.World, k: Key)
    returns (r: Result<Option<Key>, LoadError>)
    requires WorldOf(program, places, w) && k.file in program
    ensures r.Success? ==>
              Types.DeclForTypeName(w, k.file, k.name) == if r.value.Some? then Some(places(r.value.value)) else None
  {
    WalkReadsTheMeaning(program, places, w, k);
    r := DeclForTypeName(program, k);
  }
}

/**
 Reconciling a profile's bundle list with its installed dependencies (apps/cli/src/plugin.ts).

 The code appends to the list and cuts entries out of it while it loops; the declarative form is
 a filter of the old list followed by the new bundles.  `exportsPatch` says which installed
 packages declare a bundle.
 */
module PluginReconcile {
  import opened Wrappers
  import opened Sequences

  type Name = string

  // ---------------------------------------------------------------- the declarative form

  /** Names the package manager is responsible for: dependencies before the command or after it. */
  predicate Managed(before: set<Name>, dependencies: seq<Name>, name: Name) {
    name in before || name in dependencies
  }

  function Stays(before: set<Name>, dependencies: seq<Name>, exportsPatch: Name -> bool): Name -> bool {
    name => Managed(before, dependencies, name) ==> name in dependencies && exportsPatch(name)
  }

  function Joins(plugins: seq<Name>, exportsPatch: Name -> bool): Name -> bool {
    name => exportsPatch(name) && name !in plugins
  }

  function Reconciled(
      before: set<Name>, dependencies: seq<Name>, plugins: seq<Name>, exportsPatch: Name -> bool): seq<Name> {
    Filter(plugins, Stays(before, dependencies, exportsPatch)) + Filter(dependencies, Joins(plugins, exportsPatch))
  }

  function NeedsWarning(before: set<Name>, exportsPatch: Name -> bool): Name -> bool {
    name => !exportsPatch(name) && name !in before
  }

  // ---------------------------------------------------------------- the loops

  lemma {:induction false} FirstOccurrence(front: seq<Name>, name: Name, back: seq<Name>)
    requires name !in front
    ensures IndexOf(front + ([name] + back), name) == |front|
  {
    if front != [] {
      assert front[0] in front && (front + ([name] + back))[1..] == front[1..] + ([name] + back);
      FirstOccurrence(front[1..], name, back);
    }
  }

  /**
   What is written back, or None when the manifest is left alone, and the packages warned about.
   Dependencies are the keys of an object, so they are distinct; the bundle list may repeat names.
   */
  method ReconcilePlugins(
      before: set<Name>, dependencies: seq<Name>, bundles: Option<seq<Name>>, exportsPatch: Name -> bool)
    returns (written: Option<seq<Name>>, warnings: seq<Name>)
    requires Distinct(dependencies)
    ensures var original := if bundles.Some? then bundles.value else [];
            var wanted := Reconciled(before, dependencies, original, exportsPatch);
            written == if wanted == original then None else Some(wanted)
    ensures warnings == Filter(dependencies, NeedsWarning(before, exportsPatch))
  {
    var plugins := if bundles.Some? then bundles.value else [];
    ghost var original := plugins;
    var appended;
    plugins, appended, warnings := AppendBundles(before, dependencies, plugins, exportsPatch);
    var removed;
    plugins, removed := RemoveStale(before, dependencies, plugins, exportsPatch);
    SplitFilter(before, dependencies, original, exportsPatch);
    ChangedIffDifferent(before, dependencies, original, exportsPatch);
    if !(appended || removed) {
      return None, warnings;
    }
    return Some(plugins), warnings;
  }

  method AppendBundles(before: set<Name>, dependencies: seq<Name>, original: seq<Name>, exportsPatch: Name -> bool)
    returns (plugins: seq<Name>, changed: bool, warnings: seq<Name>)
    requires Distinct(dependencies)
    ensures plugins == original + Filter(dependencies, Joins(original, exportsPatch))
    ensures changed <==> Filter(dependencies, Joins(original, exportsPatch)) != []
    ensures warnings == Filter(dependencies, NeedsWarning(before, exportsPatch))
  {
    plugins, changed, warnings := original, false, [];
    for k := 0 to |dependencies|
      invariant plugins == original + Filter(dependencies[..k], Joins(original, exportsPatch))
      invariant changed <==> Filter(dependencies[..k], Joins(original, exportsPatch)) != []
      invariant warnings == Filter(dependencies[..k], NeedsWarning(before, exportsPatch))
    {
      var packageName := dependencies[k];
      var isBundle := exportsPatch(packageName);
      assert packageName !in dependencies[..k];
      FilterNext(dependencies, k, Joins(original, exportsPatch));
      FilterNext(dependencies, k, NeedsWarning(before, exportsPatch));
      if isBundle && packageName !in plugins {
        plugins := plugins + [packageName];
        changed := true;
      } else if !isBundle && packageName !in before {
        warnings := warnings + [packageName];
      }
    }
    assert dependencies[..|dependencies|] == dependencies;
  }

  method RemoveStale(before: set<Name>, dependencies: seq<Name>, original: seq<Name>, exportsPatch: Name -> bool)
    returns (plugins: seq<Name>, changed: bool)
    ensures plugins == Filter(original, Stays(before, dependencies, exportsPatch))
    ensures changed <==> |plugins| < |original|
  {
    hide Filter, IndexOf, Stays, Partly;
    plugins, changed := original, false;
    ghost var stays := Stays(before, dependencies, exportsPatch);
    PartlyEnds(original, stays);
    for k := 0 to |original|
      invariant plugins == Partly(original, k, stays)
      invariant |plugins| <= |original| && (changed <==> |plugins| < |original|)
    {
      var packageName := original[k];
      var wasDependency := packageName in before || packageName in dependencies;
      var stillBundle := packageName in dependencies && exportsPatch(packageName);
      StaysUnlessStale(before, dependencies, exportsPatch, packageName);
      if wasDependency && !stillBundle {
        CutStep(original, k, stays);
        var at := IndexOf(plugins, packageName);
        plugins := plugins[..at] + plugins[at + 1..];
        changed := true;
      } else {
        KeepStep(original, k, stays);
      }
    }
  }

  lemma StaysUnlessStale(before: set<Name>, dependencies: seq<Name>, exportsPatch: Name -> bool, name: Name)
    ensures Stays(before, dependencies, exportsPatch)(name)
            <==> !((name in before || name in dependencies) && !(name in dependencies && exportsPatch(name)))
  {
    assert Managed(before, dependencies, name) <==> name in before || name in dependencies;
  }

  lemma PartlyEnds(original: seq<Name>, stays: Name -> bool)
    ensures Partly(original, 0, stays) == original && Partly(original, |original|, stays) == Filter(original, stays)
  {
    assert original[..|original|] == original && original[|original|..] == [] && original[..0] == [];
    assert Filter(original, stays) + [] == Filter(original, stays);
    assert [] + original[0..] == original;
  }

  /** The list while entry k is looked at: what was kept of the entries before it, and the rest. */
  function Partly(original: seq<Name>, k: nat, stays: Name -> bool): seq<Name>
    requires k <= |original|
  {
    Filter(original[..k], stays) + original[k..]
  }

  lemma KeepStep(original: seq<Name>, k: nat, stays: Name -> bool)
    requires k < |original| && stays(original[k])
    ensures Partly(original, k + 1, stays) == Partly(original, k, stays)
  {
    hide Filter;
    FilterNext(original, k, stays);
    assert original[k..] == [original[k]] + original[k + 1..];
  }

  lemma CutStep(original: seq<Name>, k: nat, stays: Name -> bool)
    requires k < |original| && !stays(original[k])
    ensures var list := Partly(original, k, stays);
            original[k] in list &&
            var at := IndexOf(list, original[k]);
            list[..at] + list[at + 1..] == Partly(original, k + 1, stays)
  {
    var kept := Filter(original[..k], stays);
    assert original[k] !in kept;
    hide Filter;
    FilterNext(original, k, stays);
    assert kept + [] == kept;
    assert original[k..] == [original[k]] + original[k + 1..];
    FirstOccurrence(kept, original[k], original[k + 1..]);
    assert Partly(original, k, stays)[|kept|] == original[k];
  }

  // ---------------------------------------------------------------- what it amounts to

  lemma SplitFilter(before: set<Name>, dependencies: seq<Name>, plugins: seq<Name>, exportsPatch: Name -> bool)
    ensures var joining := Filter(dependencies, Joins(plugins, exportsPatch));
            Filter(plugins + joining, Stays(before, dependencies, exportsPatch))
                == Reconciled(before, dependencies, plugins, exportsPatch)
  {
    var joining := Filter(dependencies, Joins(plugins, exportsPatch));
    FilterConcat(plugins, joining, Stays(before, dependencies, exportsPatch));
    FilterAll(joining, Stays(before, dependencies, exportsPatch));
  }

  lemma {:induction false} FilterShortens(s: seq<Name>, keep: Name -> bool)
    ensures |Filter(s, keep)| <= |s|
    ensures (exists x :: x in s && !keep(x)) ==> |Filter(s, keep)| < |s|
  {
    if s != [] {
      FilterShortens(s[1..], keep);
      assert forall x :: x in s ==> x == s[0] || x in s[1..];
    }
  }

  /** The loops touch the list exactly when the result differs from it: no appends and removals cancel out. */
  lemma ChangedIffDifferent(before: set<Name>, dependencies: seq<Name>, plugins: seq<Name>, exportsPatch: Name -> bool)
    ensures var joining := Filter(dependencies, Joins(plugins, exportsPatch));
            var stays := Stays(before, dependencies, exportsPatch);
            (joining != [] || |Filter(plugins + joining, stays)| < |plugins + joining|)
            <==> Reconciled(before, dependencies, plugins, exportsPatch) != plugins
  {
    var joining := Filter(dependencies, Joins(plugins, exportsPatch));
    var stays := Stays(before, dependencies, exportsPatch);
    var result := Reconciled(before, dependencies, plugins, exportsPatch);
    if joining != [] {
      assert joining[0] in joining && joining[0] in result && joining[0] !in plugins;
    } else {
      assert plugins + joining == plugins && result == Filter(plugins, stays);
      FilterShortens(plugins, stays);
      if forall name :: name in plugins ==> stays(name) {
        FilterAll(plugins, stays);
      }
    }
  }

  /** A name is in the result exactly when it is an installed bundle, or was listed and is not managed. */
  lemma MembersOfResult(
      before: set<Name>, dependencies: seq<Name>, plugins: seq<Name>, exportsPatch: Name -> bool, name: Name)
    ensures name in Reconciled(before, dependencies, plugins, exportsPatch)
            <==> ((name in dependencies && exportsPatch(name))
                  || (name in plugins && name !in before && name !in dependencies))
  {
  }

  /** Warned about are the new dependencies that are no bundle. */
  lemma WarnedAbout(before: set<Name>, dependencies: seq<Name>, exportsPatch: Name -> bool, name: Name)
    ensures name in Filter(dependencies, NeedsWarning(before, exportsPatch))
            <==> name in dependencies && name !in before && !exportsPatch(name)
  {
  }

  /** Names that are dependencies neither before nor after keep every occurrence, in order. */
  lemma UnmanagedUntouched(
      before: set<Name>, dependencies: seq<Name>, plugins: seq<Name>, exportsPatch: Name -> bool,
      unmanaged: Name -> bool)
    requires forall name :: unmanaged(name) <==> name !in before && name !in dependencies
    ensures Filter(Reconciled(before, dependencies, plugins, exportsPatch), unmanaged) == Filter(plugins, unmanaged)
  {
    var kept := Filter(plugins, Stays(before, dependencies, exportsPatch));
    var joining := Filter(dependencies, Joins(plugins, exportsPatch));
    FilterConcat(kept, joining, unmanaged);
    FilterTwice(plugins, Stays(before, dependencies, exportsPatch), unmanaged, unmanaged);
    FilterNone(joining, unmanaged);
  }

  /** A second run, from any manifest that adds no dependencies, changes nothing and writes nothing. */
  lemma SecondRunIsANoOp(
      before: set<Name>, again: set<Name>, dependencies: seq<Name>, plugins: seq<Name>, exportsPatch: Name -> bool)
    requires forall name :: name in again ==> Managed(before, dependencies, name)
    ensures var result := Reconciled(before, dependencies, plugins, exportsPatch);
            Reconciled(again, dependencies, result, exportsPatch) == result
  {
    var result := Reconciled(before, dependencies, plugins, exportsPatch);
    FilterAll(result, Stays(again, dependencies, exportsPatch));
    var joining := Filter(dependencies, Joins(result, exportsPatch));
    if joining != [] {
      assert joining[0] in joining;
      MembersOfResult(before, dependencies, plugins, exportsPatch, joining[0]);
    }
  }
}

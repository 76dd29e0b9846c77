/**
 Compiler-face isolation across project references
 (docker/support/scripts/project-reference-faces.ts).

 Paths are absolute component lists.  The workspace says which configs exist, what each
 extends (after path resolution) and which configs it references.
 */
module ReferenceFaces {
  import opened Wrappers
  import opened Sequences

  type Path = seq<string>

  datatype Face = Host | Client

  datatype Reference = Reference(text: string, target: Path)

  datatype Config = Config(parent: Option<Path>, references: seq<Reference>)

  datatype Workspace = Workspace(root: Path, configs: map<Path, Config>, splitDirectories: seq<Path>)

  datatype Violation =
    | NoFace(config: Path, reference: string, splitRoot: Path)
    | WrongLeaf(config: Path, reference: string, splitRoot: Path, face: Face, expected: Path)

  // ---------------------------------------------------------------- faces

  function FaceFile(f: Face): string {
    match f
    case Host => "tsconfig.host.json"
    case Client => "tsconfig.client.json"
  }

  /** The face a config declares by its own name. */
  function NamedFace(ws: Workspace, config: Path): Option<Face> {
    if config != [] && config[|config| - 1] == "tsconfig.host.json" then Some(Host)
    else if config != [] && config[|config| - 1] == "tsconfig.client.json" then Some(Client)
    else if config == ws.root + ["tsconfig.base.json"] then Some(Host)
    else if config == ws.root + ["tsconfig.base.client.json"] then Some(Client)
    else None
  }

  function ExtendedConfig(ws: Workspace, config: Path): (r: Option<Path>)
    ensures r.Some? ==> r.value in ws.configs
  {
    if config in ws.configs && ws.configs[config].parent.Some? && ws.configs[config].parent.value in ws.configs
    then ws.configs[config].parent else None
  }

  /** The face of a config: its own, or the one it inherits along `extends`. */
  function ProjectFace(ws: Workspace, config: Path, seen: set<Path>): Option<Face>
    requires config in ws.configs
    decreases |ws.configs.Keys - seen|
  {
    if NamedFace(ws, config).Some? then NamedFace(ws, config)
    else if config in seen then None
    else
      var parent := ExtendedConfig(ws, config);
      if parent.None? then None
      else
        assert ws.configs.Keys - (seen + {config}) == ws.configs.Keys - seen - {config};
        ProjectFace(ws, parent.value, seen + {config})
  }

  /** The face found within `n` extension steps, with no memory of what was visited. */
  ghost function FaceWithin(ws: Workspace, config: Path, n: nat): Option<Face>
    decreases n
  {
    if NamedFace(ws, config).Some? then NamedFace(ws, config)
    else if n == 0 || ExtendedConfig(ws, config).None? then None
    else FaceWithin(ws, ExtendedConfig(ws, config).value, n - 1)
  }

  /** The visited configs are faceless and extend each other, or the current one. */
  ghost predicate Trail(ws: Workspace, seen: set<Path>, config: Path) {
    forall s :: s in seen ==>
      NamedFace(ws, s).None? && ExtendedConfig(ws, s).Some? && ExtendedConfig(ws, s).value in seen + {config}
  }

  lemma {:induction false} ClosedTrailIsFaceless(ws: Workspace, seen: set<Path>, config: Path, s: Path, n: nat)
    requires Trail(ws, seen, config) && config in seen && s in seen
    ensures FaceWithin(ws, s, n).None?
    decreases n
  {
    if n > 0 {
      ClosedTrailIsFaceless(ws, seen, config, ExtendedConfig(ws, s).value, n - 1);
    }
  }

  ghost predicate HasFace(ws: Workspace, config: Path, f: Face) {
    exists n: nat :: FaceWithin(ws, config, n) == Some(f)
  }

  lemma FaceIsInherited(ws: Workspace, config: Path, f: Face)
    requires NamedFace(ws, config).None? && ExtendedConfig(ws, config).Some?
    ensures HasFace(ws, config, f) <==> HasFace(ws, ExtendedConfig(ws, config).value, f)
  {
    var parent := ExtendedConfig(ws, config).value;
    if HasFace(ws, parent, f) {
      var n: nat :| FaceWithin(ws, parent, n) == Some(f);
      assert FaceWithin(ws, config, n + 1) == Some(f);
    }
    if HasFace(ws, config, f) {
      var n: nat :| FaceWithin(ws, config, n) == Some(f);
      assert FaceWithin(ws, parent, n - 1) == Some(f);
    }
  }

  lemma OwnFaceDecides(ws: Workspace, config: Path, f: Face)
    requires NamedFace(ws, config).Some? || ExtendedConfig(ws, config).None?
    ensures HasFace(ws, config, f) <==> NamedFace(ws, config) == Some(f)
  {
    assert FaceWithin(ws, config, 0) == NamedFace(ws, config);
    forall n: nat ensures FaceWithin(ws, config, n) == NamedFace(ws, config) {
    }
  }

  lemma {:induction false} ProjectFaceFollowsTrail(ws: Workspace, config: Path, seen: set<Path>, f: Face)
    requires config in ws.configs && Trail(ws, seen, config)
    ensures ProjectFace(ws, config, seen) == Some(f) <==> HasFace(ws, config, f)
    decreases |ws.configs.Keys - seen|
  {
    hide HasFace, NamedFace, ExtendedConfig;
    if NamedFace(ws, config).Some? {
      OwnFaceDecides(ws, config, f);
    } else if config in seen {
      FacelessTrail(ws, seen, config, f);
    } else if ExtendedConfig(ws, config).Some? {
      var parent := ExtendedConfig(ws, config).value;
      assert ws.configs.Keys - (seen + {config}) == ws.configs.Keys - seen - {config};
      ProjectFaceFollowsTrail(ws, parent, seen + {config}, f);
      FaceIsInherited(ws, config, f);
    } else {
      OwnFaceDecides(ws, config, f);
    }
  }

  lemma FacelessTrail(ws: Workspace, seen: set<Path>, config: Path, f: Face)
    requires Trail(ws, seen, config) && config in seen
    ensures !HasFace(ws, config, f)
  {
    forall n: nat ensures FaceWithin(ws, config, n) != Some(f) {
      ClosedTrailIsFaceless(ws, seen, config, config, n);
    }
  }

  /** The cycle guard costs nothing: the face found is the first one along `extends`, and none is missed. */
  lemma ProjectFaceIsFirstOnTheWay(ws: Workspace, config: Path, f: Face)
    requires config in ws.configs
    ensures ProjectFace(ws, config, {}) == Some(f) <==> HasFace(ws, config, f)
  {
    ProjectFaceFollowsTrail(ws, config, {}, f);
  }

  // ---------------------------------------------------------------- split roots

  function TextLength(p: Path): nat {
    if p == [] then 0 else TextLength(p[..|p| - 1]) + 1 + |p[|p| - 1]|
  }

  lemma {:induction false} PrefixIsShorter(p: Path, q: Path)
    requires p <= q
    ensures TextLength(p) <= TextLength(q) && (p != q ==> TextLength(p) < TextLength(q))
  {
    if p != q {
      assert p <= q[..|q| - 1];
      PrefixIsShorter(p, q[..|q| - 1]);
    }
  }

  function LongestFirst(p: Path, q: Path): int {
    TextLength(q) - TextLength(p)
  }

  function SplitRoots(ws: Workspace): seq<Path> {
    Sort(ws.splitDirectories, LongestFirst)
  }

  function FirstContaining(roots: seq<Path>, target: Path): Option<Path> {
    if roots == [] then None
    else if roots[0] <= target then Some(roots[0])
    else FirstContaining(roots[1..], target)
  }

  function ContainingSplitRoot(ws: Workspace, target: Path): Option<Path> {
    FirstContaining(SplitRoots(ws), target)
  }

  lemma {:induction false} FirstContainingIsInnermost(roots: seq<Path>, target: Path)
    requires SortedBy(roots, (a, b) => LongestFirst(a, b) <= 0)
    ensures FirstContaining(roots, target).None? <==> forall r :: r in roots ==> !(r <= target)
    ensures FirstContaining(roots, target).Some? ==>
              && FirstContaining(roots, target).value in roots && FirstContaining(roots, target).value <= target
              && forall r :: r in roots && r <= target ==> r <= FirstContaining(roots, target).value
  {
    if roots != [] {
      FirstContainingIsInnermost(roots[1..], target);
      forall r ensures r in roots <==> r == roots[0] || r in roots[1..] {
        assert roots == [roots[0]] + roots[1..];
      }
      if roots[0] <= target {
        assert roots[0] in roots;
        forall r | r in roots && r <= target ensures r <= roots[0] {
          var i :| 0 <= i < |roots| && roots[i] == r;
          assert i > 0 ==> LongestFirst(roots[0], roots[i]) <= 0;
          if |r| > |roots[0]| {
            assert roots[0] <= r;
            PrefixIsShorter(roots[0], r);
          }
        }
      }
    }
  }

  /** The split directory around a path that lies inside every other one around it. */
  ghost predicate Innermost(ws: Workspace, r: Path, target: Path) {
    && r in ws.splitDirectories && r <= target
    && forall q :: q in ws.splitDirectories && q <= target ==> q <= r
  }

  /** The root found is the innermost split directory around the target, if there is any. */
  lemma ContainingRootIsInnermost(ws: Workspace, target: Path)
    ensures ContainingSplitRoot(ws, target).None? <==> forall r :: r in ws.splitDirectories ==> !(r <= target)
    ensures forall r {:trigger Innermost(ws, r, target)} :: ContainingSplitRoot(ws, target) == Some(r) <==>
        Innermost(ws, r, target)
  {
    SortIsSorted(ws.splitDirectories, LongestFirst);
    SortKeepsElements(ws.splitDirectories, LongestFirst);
    SameElements(ws.splitDirectories, SplitRoots(ws));
    FirstContainingIsInnermost(SplitRoots(ws), target);
    forall r ensures ContainingSplitRoot(ws, target) == Some(r) <==> Innermost(ws, r, target) {
      if ContainingSplitRoot(ws, target) == Some(r) {
      } else if Innermost(ws, r, target) {
        var found := ContainingSplitRoot(ws, target).value;
        assert found <= r && r <= found;
        PrefixesAgree(found, r);
      }
    }
  }

  lemma PrefixesAgree(p: Path, q: Path)
    requires p <= q && q <= p
    ensures p == q
  {
  }

  // ---------------------------------------------------------------- reference edges

  /** What is wrong with one reference of one config. */
  function Fault(ws: Workspace, config: Path, face: Option<Face>, reference: Reference): Option<Violation> {
    var root := ContainingSplitRoot(ws, reference.target);
    if root.None? then None
    else if face.None? then Some(NoFace(config, reference.text, root.value))
    else
      var expected := root.value + [FaceFile(face.value)];
      if reference.target != expected then Some(WrongLeaf(config, reference.text, root.value, face.value, expected))
      else None
  }

  function FaultOf(ws: Workspace, config: Path, reference: Reference): Option<Violation>
    requires config in ws.configs
  {
    Fault(ws, config, ProjectFace(ws, config, {}), reference)
  }

  /** A reference is face-consistent when it enters no split project, or the leaf of the face it comes from. */
  ghost predicate FaceConsistent(ws: Workspace, config: Path, reference: Reference)
    requires config in ws.configs
  {
    forall r :: Innermost(ws, r, reference.target) ==>
      exists f :: HasFace(ws, config, f) && reference.target == r + [FaceFile(f)]
  }

  /** The fault check decides face consistency, as stated without traversal order or visited sets. */
  lemma FaultIffInconsistent(ws: Workspace, config: Path, reference: Reference)
    requires config in ws.configs
    ensures FaultOf(ws, config, reference).None? <==> FaceConsistent(ws, config, reference)
  {
    hide Innermost, ContainingSplitRoot, ProjectFace, HasFace;
    ContainingRootIsInnermost(ws, reference.target);
    var root := ContainingSplitRoot(ws, reference.target);
    FaceIsUnique(ws, config);
    if root.Some? {
      assert Innermost(ws, root.value, reference.target);
    }
  }

  lemma FaceIsUnique(ws: Workspace, config: Path)
    requires config in ws.configs
    ensures forall f {:trigger HasFace(ws, config, f)} :: HasFace(ws, config, f) <==>
        ProjectFace(ws, config, {}) == Some(f)
  {
    forall f ensures HasFace(ws, config, f) <==> ProjectFace(ws, config, {}) == Some(f) {
      ProjectFaceIsFirstOnTheWay(ws, config, f);
    }
  }

  // ---------------------------------------------------------------- which file names carry which face

  /** A file whose name says nothing about a face. */
  ghost predicate Faceless(ws: Workspace, file: Path) {
    && (file == [] || file[|file| - 1] !in ["tsconfig.host.json", "tsconfig.client.json"])
    && file != ws.root + ["tsconfig.base.json"] && file != ws.root + ["tsconfig.base.client.json"]
  }

  ghost predicate IsHostFile(ws: Workspace, file: Path) {
    (file != [] && file[|file| - 1] == "tsconfig.host.json") || file == ws.root + ["tsconfig.base.json"]
  }

  ghost predicate IsClientFile(ws: Workspace, file: Path) {
    (file != [] && file[|file| - 1] == "tsconfig.client.json") || file == ws.root + ["tsconfig.base.client.json"]
  }

  /** Existing configs, each extending the next, none before the last with a face of its own. */
  ghost predicate ExtendsWay(ws: Workspace, way: seq<Path>) {
    && way != []
    && (forall i :: 0 <= i < |way| ==> way[i] in ws.configs)
    && (forall i :: 0 <= i < |way| - 1 ==> ws.configs[way[i]].parent == Some(way[i + 1]) && Faceless(ws, way[i]))
  }

  /** The last config extends nothing that exists, or one that stands on the way already. */
  ghost predicate EndsFaceless(ws: Workspace, way: seq<Path>)
    requires ExtendsWay(ws, way)
  {
    var last := way[|way| - 1];
    && Faceless(ws, last)
    && match ws.configs[last].parent
       case None => true
       case Some(parent) => parent !in ws.configs || parent in way
  }

  lemma NamesDiffer()
    ensures "tsconfig.host.json" != "tsconfig.client.json" && "tsconfig.host.json" != "tsconfig.base.json"
    ensures "tsconfig.base.json" != "tsconfig.client.json" && "tsconfig.base.json" != "tsconfig.base.client.json"
    ensures "tsconfig.base.client.json" != "tsconfig.client.json"
    ensures "tsconfig.base.client.json" != "tsconfig.host.json"
  {
    assert "tsconfig.host.json"[9] == 'h' && "tsconfig.base.json"[9] == 'b';
  }

  /** The name decides the face, and no file stands for both. */
  lemma NamesDecide(ws: Workspace, file: Path)
    ensures IsHostFile(ws, file) <==> NamedFace(ws, file) == Some(Host)
    ensures IsClientFile(ws, file) <==> NamedFace(ws, file) == Some(Client)
    ensures Faceless(ws, file) <==> NamedFace(ws, file).None?
  {
    NamesDiffer();
  }

  lemma {:induction false} FaceAlongTheWay(ws: Workspace, way: seq<Path>, f: Face)
    requires ExtendsWay(ws, way)
    ensures HasFace(ws, way[0], f) <==> HasFace(ws, way[|way| - 1], f)
  {
    if |way| > 1 {
      hide HasFace;
      assert ws.configs[way[0]].parent == Some(way[0 + 1]);
      NamesDecide(ws, way[0]);
      FaceIsInherited(ws, way[0], f);
      FaceAlongTheWay(ws, way[1..], f);
    }
  }

  lemma LoopIsATrail(ws: Workspace, way: seq<Path>)
    requires ExtendsWay(ws, way) && EndsFaceless(ws, way) && ExtendedConfig(ws, way[|way| - 1]).Some?
    ensures Trail(ws, (set p | p in way), way[0])
  {
    hide NamedFace;
    forall i | 0 <= i < |way|
      ensures NamedFace(ws, way[i]).None?
      ensures ExtendedConfig(ws, way[i]).Some? && ExtendedConfig(ws, way[i]).value in way
    {
      NamesDecide(ws, way[i]);
      assert i < |way| - 1 ==> way[i + 1] in way;
    }
  }

  lemma NoFaceAtTheEnd(ws: Workspace, way: seq<Path>, f: Face)
    requires ExtendsWay(ws, way) && EndsFaceless(ws, way)
    ensures !HasFace(ws, way[0], f)
  {
    var last := way[|way| - 1];
    hide HasFace;
    NamesDecide(ws, last);
    if ExtendedConfig(ws, last).None? {
      OwnFaceDecides(ws, last, f);
      FaceAlongTheWay(ws, way, f);
    } else {
      LoopIsATrail(ws, way);
      FacelessTrail(ws, (set p | p in way), way[0], f);
    }
  }

  /** What a reference into a split directory is checked for, told from the file names along `extends`. */
  lemma FileNamesDecide(ws: Workspace, way: seq<Path>, reference: Reference, r: Path)
    requires ExtendsWay(ws, way) && Innermost(ws, r, reference.target)
    ensures IsHostFile(ws, way[|way| - 1]) ==>
              (FaceConsistent(ws, way[0], reference) <==> reference.target == r + ["tsconfig.host.json"])
    ensures IsClientFile(ws, way[|way| - 1]) ==>
              (FaceConsistent(ws, way[0], reference) <==> reference.target == r + ["tsconfig.client.json"])
    ensures EndsFaceless(ws, way) ==> !FaceConsistent(ws, way[0], reference)
  {
    NamesDiffer();
    var last := way[|way| - 1];
    hide HasFace, NamedFace;
    forall f ensures HasFace(ws, way[0], f) <==> HasFace(ws, last, f) {
      FaceAlongTheWay(ws, way, f);
    }
    NamesDecide(ws, last);
    if NamedFace(ws, last).Some? {
      forall f ensures HasFace(ws, last, f) <==> NamedFace(ws, last) == Some(f) {
        OwnFaceDecides(ws, last, f);
      }
    } else if EndsFaceless(ws, way) {
      forall f ensures !HasFace(ws, way[0], f) {
        NoFaceAtTheEnd(ws, way, f);
      }
    }
    OnlyInnermost(ws, reference.target, r);
  }

  lemma OnlyInnermost(ws: Workspace, target: Path, r: Path)
    requires Innermost(ws, r, target)
    ensures forall q :: Innermost(ws, q, target) <==> q == r
  {
    forall q | Innermost(ws, q, target) ensures q == r {
      PrefixesAgree(q, r);
    }
  }

  /** And what is reported: the config, the text of the reference, the split directory and the right leaf. */
  lemma FileNamesReport(ws: Workspace, way: seq<Path>, reference: Reference, r: Path)
    requires ExtendsWay(ws, way) && Innermost(ws, r, reference.target)
    ensures IsHostFile(ws, way[|way| - 1]) && reference.target != r + ["tsconfig.host.json"] ==>
              FaultOf(ws, way[0], reference)
              == Some(WrongLeaf(way[0], reference.text, r, Host, r + ["tsconfig.host.json"]))
    ensures IsClientFile(ws, way[|way| - 1]) && reference.target != r + ["tsconfig.client.json"] ==>
              FaultOf(ws, way[0], reference)
              == Some(WrongLeaf(way[0], reference.text, r, Client, r + ["tsconfig.client.json"]))
    ensures EndsFaceless(ws, way) ==>
              FaultOf(ws, way[0], reference) == Some(NoFace(way[0], reference.text, r))
  {
    var last := way[|way| - 1];
    NamesDecide(ws, last);
    hide HasFace, NamedFace, ProjectFace, ContainingSplitRoot;
    ContainingRootIsInnermost(ws, reference.target);
    FaceIsUnique(ws, way[0]);
    forall f ensures HasFace(ws, way[0], f) <==> HasFace(ws, last, f) {
      FaceAlongTheWay(ws, way, f);
    }
    if NamedFace(ws, last).Some? {
      OwnFaceDecides(ws, last, NamedFace(ws, last).value);
    } else if EndsFaceless(ws, way) {
      NoFaceAtTheEnd(ws, way, Host);
      NoFaceAtTheEnd(ws, way, Client);
    }
  }

  function Faults(ws: Workspace, config: Path, references: seq<Reference>): seq<Violation>
    requires config in ws.configs
  {
    if references == [] then []
    else
      var last := FaultOf(ws, config, references[|references| - 1]);
      Faults(ws, config, references[..|references| - 1]) + if last.Some? then [last.value] else []
  }

  function FaultsOf(ws: Workspace, config: Path): seq<Violation> {
    if config in ws.configs then Faults(ws, config, ws.configs[config].references) else []
  }

  function FaultsAlong(ws: Workspace, order: seq<Path>): seq<Violation> {
    if order == [] then [] else FaultsAlong(ws, order[..|order| - 1]) + FaultsOf(ws, order[|order| - 1])
  }

  lemma {:induction false} NoFaultsIff(ws: Workspace, config: Path, references: seq<Reference>)
    requires config in ws.configs
    ensures Faults(ws, config, references) == [] <==> forall r :: r in references ==> FaultOf(ws, config, r).None?
  {
    if references != [] {
      var last := references[|references| - 1];
      NoFaultsIff(ws, config, references[..|references| - 1]);
      assert references == references[..|references| - 1] + [last];
      assert last in references;
    }
  }

  lemma {:induction false} NoFaultsAlongIff(ws: Workspace, order: seq<Path>)
    ensures FaultsAlong(ws, order) == [] <==> forall c :: c in order ==> FaultsOf(ws, c) == []
  {
    if order != [] {
      var last := order[|order| - 1];
      NoFaultsAlongIff(ws, order[..|order| - 1]);
      assert order == order[..|order| - 1] + [last];
      assert last in order;
    }
  }

  function Aggregates(ws: Workspace): seq<Path> {
    [ws.root + ["tsconfig.host.json"], ws.root + ["tsconfig.client.json"]]
  }

  ghost predicate References(ws: Workspace, a: Path, b: Path) {
    a in ws.configs && exists r :: r in ws.configs[a].references && r.target == b
  }

  ghost predicate Follows(ws: Workspace, a: Path, b: Path) {
    a in ws.configs && exists r :: r in ws.configs[a].references && r.target == b && FaultOf(ws, a, r).None?
  }

  /** Reached in `n` steps from an aggregate over existing configs, along any reference. */
  ghost predicate Reached(ws: Workspace, c: Path, n: nat)
    decreases n
  {
    c in ws.configs && (c in Aggregates(ws) || (n > 0 && exists b :: Reached(ws, b, n - 1) && References(ws, b, c)))
  }

  /** The same along fault-free references only, which is all the traversal follows. */
  ghost predicate Visited(ws: Workspace, c: Path, n: nat)
    decreases n
  {
    c in ws.configs && (c in Aggregates(ws) || (n > 0 && exists b :: Visited(ws, b, n - 1) && Follows(ws, b, c)))
  }

  lemma {:induction false} VisitedIsReached(ws: Workspace, c: Path, n: nat)
    requires Visited(ws, c, n)
    ensures Reached(ws, c, n)
    decreases n
  {
    if c !in Aggregates(ws) {
      var b :| Visited(ws, b, n - 1) && Follows(ws, b, c);
      VisitedIsReached(ws, b, n - 1);
      assert References(ws, b, c);
    }
  }

  lemma {:induction false} FaultlessReachedIsVisited(ws: Workspace, c: Path, n: nat)
    requires Reached(ws, c, n)
    requires forall d, m: nat :: Visited(ws, d, m) ==> FaultsOf(ws, d) == []
    ensures Visited(ws, c, n)
    decreases n
  {
    if c !in Aggregates(ws) {
      var b :| Reached(ws, b, n - 1) && References(ws, b, c);
      FaultlessReachedIsVisited(ws, b, n - 1);
      assert FaultsOf(ws, b) == [];
      NoFaultsIff(ws, b, ws.configs[b].references);
      assert Follows(ws, b, c);
    }
  }

  ghost predicate EverVisited(ws: Workspace, c: Path) {
    exists n: nat :: Visited(ws, c, n)
  }

  ghost predicate EverReached(ws: Workspace, c: Path) {
    exists n: nat :: Reached(ws, c, n)
  }

  /** First-bad-edge argument: although bad edges are not followed, none reachable goes unnoticed. */
  lemma CleanVisitIffClean(ws: Workspace)
    ensures (forall c :: EverVisited(ws, c) ==> FaultsOf(ws, c) == [])
            <==> (forall c :: EverReached(ws, c) ==> FaultsOf(ws, c) == [])
  {
    hide FaultsOf;
    if forall c :: EverVisited(ws, c) ==> FaultsOf(ws, c) == [] {
      forall d, m: nat | Visited(ws, d, m) ensures FaultsOf(ws, d) == [] {
        assert EverVisited(ws, d);
      }
      forall c | EverReached(ws, c) ensures FaultsOf(ws, c) == [] {
        var n: nat :| Reached(ws, c, n);
        FaultlessReachedIsVisited(ws, c, n);
      }
    } else {
      var c :| EverVisited(ws, c) && FaultsOf(ws, c) != [];
      var n: nat :| Visited(ws, c, n);
      VisitedIsReached(ws, c, n);
      assert EverReached(ws, c);
    }
  }

  /** Every reference of every config reachable from the aggregates, along any references, is face-consistent. */
  ghost predicate Isolated(ws: Workspace) {
    forall c, r :: EverReached(ws, c) && c in ws.configs && r in ws.configs[c].references ==> FaceConsistent(ws, c, r)
  }

  lemma CleanMeansIsolated(ws: Workspace)
    ensures (forall c :: EverReached(ws, c) ==> FaultsOf(ws, c) == []) <==> Isolated(ws)
  {
    hide FaceConsistent, EverReached, Faults;
    forall c | c in ws.configs
      ensures FaultsOf(ws, c) == [] <==> forall r :: r in ws.configs[c].references ==> FaceConsistent(ws, c, r)
    {
      NoFaultsIff(ws, c, ws.configs[c].references);
      forall r ensures FaultOf(ws, c, r).None? <==> FaceConsistent(ws, c, r) {
        FaultIffInconsistent(ws, c, r);
      }
    }
  }

  ghost predicate HasReferenceTo(config: Config, target: Path) {
    exists j :: 0 <= j < |config.references| && config.references[j].target == target
  }

  /** Existing configs from one of the two root configs on, each with a reference to the next. */
  ghost predicate ReferenceWay(ws: Workspace, way: seq<Path>) {
    && way != [] && way[0] in [ws.root + ["tsconfig.host.json"], ws.root + ["tsconfig.client.json"]]
    && (forall i :: 0 <= i < |way| ==> way[i] in ws.configs)
    && (forall i :: 0 <= i < |way| - 1 ==> HasReferenceTo(ws.configs[way[i]], way[i + 1]))
  }

  /** What is checked: the configs on a way of references from the two root configs. */
  lemma ReachedIffOnAWay(ws: Workspace, c: Path)
    ensures EverReached(ws, c) <==> exists way :: ReferenceWay(ws, way) && way[|way| - 1] == c
  {
    if EverReached(ws, c) {
      var n: nat :| Reached(ws, c, n);
      var way := WayOf(ws, c, n);
    }
    if way :| ReferenceWay(ws, way) && way[|way| - 1] == c {
      EndIsReached(ws, way);
    }
  }

  lemma {:induction false} WayOf(ws: Workspace, c: Path, n: nat) returns (way: seq<Path>)
    requires Reached(ws, c, n)
    ensures ReferenceWay(ws, way) && way[|way| - 1] == c
    decreases n
  {
    if c in Aggregates(ws) {
      way := [c];
    } else {
      var b :| Reached(ws, b, n - 1) && References(ws, b, c);
      way := WayOf(ws, b, n - 1);
      LongerWay(ws, way, c);
      way := way + [c];
    }
  }

  lemma LongerWay(ws: Workspace, before: seq<Path>, c: Path)
    requires ReferenceWay(ws, before) && References(ws, before[|before| - 1], c) && c in ws.configs
    ensures ReferenceWay(ws, before + [c])
  {
    var way := before + [c];
    assert way[0] == before[0];
    assert HasReferenceTo(ws.configs[before[|before| - 1]], c);
    hide HasReferenceTo;
    forall i | 0 <= i < |way| - 1 ensures HasReferenceTo(ws.configs[way[i]], way[i + 1]) {
      if i < |before| - 1 {
        assert way[i] == before[i] && way[i + 1] == before[i + 1];
      }
    }
  }

  lemma {:induction false} EndIsReached(ws: Workspace, way: seq<Path>)
    requires ReferenceWay(ws, way)
    ensures Reached(ws, way[|way| - 1], |way|)
    decreases |way|
  {
    if |way| > 1 {
      EndIsReached(ws, way[..|way| - 1]);
      assert way[|way| - 2 + 1] == way[|way| - 1];
      assert References(ws, way[|way| - 2], way[|way| - 1]);
    }
  }

  // ---------------------------------------------------------------- the traversal

  /** Every visited config is reachable along good edges, and so is every existing pending one. */
  ghost predicate OnlyVisitable(ws: Workspace, visited: set<Path>, pending: seq<Path>) {
    forall c :: c in visited || (c in pending && c in ws.configs) ==> EverVisited(ws, c)
  }

  /** Nothing that must still be seen has been dropped. */
  ghost predicate NothingLost(ws: Workspace, visited: set<Path>, pending: seq<Path>) {
    && (forall c :: c in Aggregates(ws) && c in ws.configs ==> c in visited || c in pending)
    && (forall b, c :: b in visited && Follows(ws, b, c) && c in ws.configs ==> c in visited || c in pending)
  }

  lemma {:induction false} ClosedVisitCovers(ws: Workspace, visited: set<Path>, c: Path, n: nat)
    requires NothingLost(ws, visited, []) && Visited(ws, c, n)
    ensures c in visited
    decreases n
  {
    if c !in Aggregates(ws) {
      var b :| Visited(ws, b, n - 1) && Follows(ws, b, c);
      ClosedVisitCovers(ws, visited, b, n - 1);
    }
  }

  /** The references of one config: its faults, and the targets to follow. */
  method CheckReferences(ws: Workspace, config: Path) returns (faults: seq<Violation>, targets: seq<Path>)
    requires config in ws.configs
    ensures faults == FaultsOf(ws, config)
    ensures forall t :: t in targets <==> Follows(ws, config, t)
  {
    var references := ws.configs[config].references;
    var face := ProjectFace(ws, config, {});
    faults, targets := [], [];
    for i := 0 to |references|
      invariant faults == Faults(ws, config, references[..i])
      invariant forall t :: t in targets <==>
          exists r :: r in references[..i] && r.target == t && FaultOf(ws, config, r).None?
    {
      var fault := Fault(ws, config, face, references[i]);
      assert references[..i + 1] == references[..i] + [references[i]];
      assert references[..i + 1][..i] == references[..i];
      if fault.Some? {
        faults := faults + [fault.value];
      } else {
        targets := targets + [references[i].target];
      }
    }
    assert references[..|references|] == references;
  }

  lemma StepKeepsBounds(ws: Workspace, visited: set<Path>, pending: seq<Path>, config: Path, targets: seq<Path>)
    requires pending != [] && config == pending[|pending| - 1] && config in ws.configs
    requires OnlyVisitable(ws, visited, pending) && NothingLost(ws, visited, pending)
    requires forall t :: t in targets <==> Follows(ws, config, t)
    ensures OnlyVisitable(ws, visited + {config}, pending[..|pending| - 1] + targets)
    ensures NothingLost(ws, visited + {config}, pending[..|pending| - 1] + targets)
  {
    assert pending == pending[..|pending| - 1] + [config];
    assert config in pending;
    var k: nat :| Visited(ws, config, k);
    forall t | t in targets && t in ws.configs ensures Visited(ws, t, k + 1) {
      assert Follows(ws, config, t);
    }
    forall t | t in targets && t in ws.configs ensures EverVisited(ws, t) {
      assert Visited(ws, t, k + 1);
    }
  }

  lemma SkipKeepsBounds(ws: Workspace, visited: set<Path>, pending: seq<Path>)
    requires pending != [] && (pending[|pending| - 1] in visited || pending[|pending| - 1] !in ws.configs)
    requires OnlyVisitable(ws, visited, pending) && NothingLost(ws, visited, pending)
    ensures OnlyVisitable(ws, visited, pending[..|pending| - 1]) && NothingLost(ws, visited, pending[..|pending| - 1])
  {
    assert pending == pending[..|pending| - 1] + [pending[|pending| - 1]];
  }

  lemma StartBounds(ws: Workspace)
    ensures OnlyVisitable(ws, {}, Aggregates(ws)) && NothingLost(ws, {}, Aggregates(ws))
  {
    forall c | c in Aggregates(ws) && c in ws.configs ensures EverVisited(ws, c) {
      assert Visited(ws, c, 0);
    }
  }

  /**
   The traversal ends on every reference graph, cyclic or not; it handles each config reachable
   along good references exactly once and reports exactly their faults; and it reports nothing
   exactly when every reference of every config reachable along any references is fault-free.
   */
  method Traverse(ws: Workspace)
    returns (violations: seq<Violation>, ghost order: seq<Path>)
    ensures violations == FaultsAlong(ws, order)
    ensures Distinct(order) && forall c :: c in order <==> EverVisited(ws, c)
    ensures violations == [] <==> Isolated(ws)
  {
    hide Isolated, FaultsOf, EverVisited, EverReached, Follows, OnlyVisitable, NothingLost;
    violations, order := [], [];
    var pending := Aggregates(ws);
    var visited: set<Path> := {};
    StartBounds(ws);
    while |pending| > 0
      invariant visited <= ws.configs.Keys
      invariant Distinct(order) && forall c :: c in order <==> c in visited
      invariant violations == FaultsAlong(ws, order)
      invariant OnlyVisitable(ws, visited, pending) && NothingLost(ws, visited, pending)
      decreases |ws.configs.Keys - visited|, |pending|
    {
      var config := pending[|pending| - 1];
      if config in visited || config !in ws.configs {
        SkipKeepsBounds(ws, visited, pending);
        pending := pending[..|pending| - 1];
        continue;
      }
      var faults, targets := CheckReferences(ws, config);
      StepKeepsBounds(ws, visited, pending, config, targets);
      FewerUnvisited(ws.configs.Keys, visited, config);
      pending := pending[..|pending| - 1] + targets;
      visited := visited + {config};
      violations := violations + faults;
      order := order + [config];
    }
    AtTheEnd(ws, visited, order);
    CleanMeansIsolated(ws);
  }

  lemma FewerUnvisited(configs: set<Path>, visited: set<Path>, config: Path)
    requires config in configs && config !in visited
    ensures |configs - (visited + {config})| < |configs - visited|
  {
    assert configs - (visited + {config}) == configs - visited - {config};
  }

  lemma AtTheEnd(ws: Workspace, visited: set<Path>, order: seq<Path>)
    requires OnlyVisitable(ws, visited, []) && NothingLost(ws, visited, [])
    requires forall c :: c in order <==> c in visited
    ensures forall c :: c in order <==> EverVisited(ws, c)
    ensures FaultsAlong(ws, order) == [] <==> forall c :: EverReached(ws, c) ==> FaultsOf(ws, c) == []
  {
    hide FaultsOf, Follows;
    forall c ensures c in visited <==> EverVisited(ws, c) {
      if EverVisited(ws, c) {
        var n: nat :| Visited(ws, c, n);
        ClosedVisitCovers(ws, visited, c, n);
      }
    }
    NoFaultsAlongIff(ws, order);
    CleanVisitIffClean(ws);
  }

  // ---------------------------------------------------------------- the report

  /** A path as seen from another: up out of what differs, then down. */
  function Relative(from: Path, to: Path): Path {
    if from != [] && to != [] && from[0] == to[0] then Relative(from[1..], to[1..])
    else seq(|from|, _ => "..") + to
  }

  function JoinPath(path: Path): string {
    if path == [] then "" else if |path| == 1 then path[0] else path[0] + "/" + JoinPath(path[1..])
  }

  function RepoPath(ws: Workspace, path: Path): string {
    JoinPath(Relative(ws.root, path))
  }

  function FaceLabel(f: Face): string {
    match f
    case Host => "Host"
    case Client => "Client"
  }

  /** The diagnostic for one violation; `quote` renders a string as JSON. */
  function Message(ws: Workspace, quote: string -> string, v: Violation): string {
    RepoPath(ws, v.config) + ": Project Reference " + quote(v.reference)
    + " enters split project " + RepoPath(ws, v.splitRoot)
    + match v
      case NoFace(_, _, _) => " from a config with no Host/Client face"
      case WrongLeaf(_, _, _, face, expected) =>
        " from a " + FaceLabel(face) + " config; reference " + quote(RepoPath(ws, expected)) + " instead"
  }

  function Messages(ws: Workspace, quote: string -> string, violations: seq<Violation>): seq<string> {
    if violations == [] then []
    else [Message(ws, quote, violations[0])] + Messages(ws, quote, violations[1..])
  }

  /** The order of `sort()`: by code units, a prefix first. */
  function CompareText(a: string, b: string): int {
    if a == [] then if b == [] then 0 else -1
    else if b == [] then 1
    else if a[0] != b[0] then a[0] as int - b[0] as int
    else CompareText(a[1..], b[1..])
  }

  lemma {:induction false} CompareTextSeparates(a: string, b: string)
    ensures CompareText(a, b) == -CompareText(b, a)
    ensures CompareText(a, b) == 0 ==> a == b
  {
    if a != [] && b != [] && a[0] == b[0] {
      CompareTextSeparates(a[1..], b[1..]);
      assert CompareText(a, b) == 0 ==> a == [a[0]] + a[1..] == [b[0]] + b[1..] == b;
    }
  }

  lemma {:induction false} CompareTextIsTransitive(a: string, b: string, c: string)
    requires CompareText(a, b) <= 0 && CompareText(b, c) <= 0
    ensures CompareText(a, c) <= 0
  {
    if a != [] && b != [] && c != [] && a[0] == b[0] == c[0] {
      CompareTextIsTransitive(a[1..], b[1..], c[1..]);
    }
  }

  lemma CompareTextCompares()
    ensures Comparator(CompareText)
    ensures forall a, b :: CompareText(a, b) <= 0 && CompareText(b, a) <= 0 ==> a == b
  {
    forall a, b ensures CompareText(a, b) <= 0 || CompareText(b, a) <= 0
      ensures CompareText(a, b) <= 0 && CompareText(b, a) <= 0 ==> a == b
    {
      CompareTextSeparates(a, b);
    }
    forall a, b, c | CompareText(a, b) <= 0 && CompareText(b, c) <= 0 ensures CompareText(a, c) <= 0 {
      CompareTextIsTransitive(a, b, c);
    }
  }

  /** A text stands before its continuations, and otherwise the first differing code unit decides. */
  lemma {:induction false} TextOrderIs(common: string, c: char, d: char, s: string, t: string)
    ensures CompareText(common, common + [c] + s) < 0
    ensures c < d ==> CompareText(common + [c] + s, common + [d] + t) < 0
  {
    if common != [] {
      TextOrderIs(common[1..], c, d, s, t);
      assert (common + [c] + s)[1..] == common[1..] + [c] + s;
      assert (common + [d] + t)[1..] == common[1..] + [d] + t;
    }
  }

  /** Paths below the root are shown relative to it, their parts joined by slashes. */
  lemma RepoPathIsTheRest(ws: Workspace, parts: Path, name: string)
    ensures RepoPath(ws, ws.root + [name]) == name
    ensures parts != [] ==> RepoPath(ws, ws.root + parts + [name]) == RepoPath(ws, ws.root + parts) + "/" + name
  {
    assert ws.root + parts + [name] == ws.root + (parts + [name]);
    BelowIsTheRest(ws.root, [name]);
    BelowIsTheRest(ws.root, parts);
    BelowIsTheRest(ws.root, parts + [name]);
    if parts != [] {
      JoinedOneMore(parts, name);
    }
  }

  /** From one path to another: one step up for each part that differs, then down. */
  lemma {:induction false} RelativeGoesUpAndDown(common: Path, up: Path, down: Path)
    requires up == [] || down == [] || up[0] != down[0]
    ensures Relative(common + up, common + down) == seq(|up|, _ => "..") + down
  {
    if common == [] {
      assert common + up == up && common + down == down;
    } else {
      assert (common + up)[1..] == common[1..] + up && (common + down)[1..] == common[1..] + down;
      RelativeGoesUpAndDown(common[1..], up, down);
    }
  }

  lemma BelowIsTheRest(root: Path, rest: Path)
    ensures Relative(root, root + rest) == rest
  {
    RelativeGoesUpAndDown(root, [], rest);
    assert root + [] == root;
  }

  lemma {:induction false} JoinedOneMore(parts: Path, name: string)
    requires parts != []
    ensures JoinPath(parts + [name]) == JoinPath(parts) + "/" + name
  {
    assert (parts + [name])[1..] == parts[1..] + [name];
    if |parts| > 1 {
      JoinedOneMore(parts[1..], name);
    }
  }

  /** The face a diagnostic blames is the one whose leaf it asks for. */
  lemma LabelsFollowFiles(f: Face)
    ensures FaceLabel(f) == "Host" <==> FaceFile(f) == "tsconfig.host.json"
    ensures FaceLabel(f) == "Client" <==> FaceFile(f) == "tsconfig.client.json"
    ensures FaceLabel(f) == "Host" || FaceLabel(f) == "Client"
  {
    NamesDiffer();
  }

  /** The diagnostics, word for word. */
  lemma MessagesRead(ws: Workspace, quote: string -> string, config: Path, text: string, r: Path)
    ensures Message(ws, quote, NoFace(config, text, r))
            == RepoPath(ws, config) + ": Project Reference " + quote(text)
               + " enters split project " + RepoPath(ws, r)
               + " from a config with no Host/Client face"
    ensures Message(ws, quote, WrongLeaf(config, text, r, Host, r + ["tsconfig.host.json"]))
            == RepoPath(ws, config) + ": Project Reference " + quote(text)
               + " enters split project " + RepoPath(ws, r)
               + (" from a " + "Host" + " config; reference " + quote(RepoPath(ws, r + ["tsconfig.host.json"]))
                  + " instead")
    ensures Message(ws, quote, WrongLeaf(config, text, r, Client, r + ["tsconfig.client.json"]))
            == RepoPath(ws, config) + ": Project Reference " + quote(text)
               + " enters split project " + RepoPath(ws, r)
               + (" from a " + "Client" + " config; reference " + quote(RepoPath(ws, r + ["tsconfig.client.json"]))
                  + " instead")
  {
  }

  function MessagesAlong(ws: Workspace, quote: string -> string, order: seq<Path>): seq<string> {
    Messages(ws, quote, FaultsAlong(ws, order))
  }

  lemma {:induction false} MessagesConcat(ws: Workspace, quote: string -> string, a: seq<Violation>, b: seq<Violation>)
    ensures Messages(ws, quote, a + b) == Messages(ws, quote, a) + Messages(ws, quote, b)
  {
    if a == [] {
      assert a + b == b;
    } else {
      assert (a + b)[1..] == a[1..] + b;
      MessagesConcat(ws, quote, a[1..], b);
    }
  }

  lemma {:induction false} FaultsAlongConcat(ws: Workspace, a: seq<Path>, b: seq<Path>)
    ensures FaultsAlong(ws, a + b) == FaultsAlong(ws, a) + FaultsAlong(ws, b)
    decreases |b|
  {
    if b == [] {
      assert a + b == a;
    } else {
      var front, last := b[..|b| - 1], b[|b| - 1];
      assert (a + b)[..|a + b| - 1] == a + front && (a + b)[|a + b| - 1] == last;
      FaultsAlongConcat(ws, a, front);
    }
  }

  lemma MessagesAlongConcat(ws: Workspace, quote: string -> string, a: seq<Path>, b: seq<Path>)
    ensures MessagesAlong(ws, quote, a + b) == MessagesAlong(ws, quote, a) + MessagesAlong(ws, quote, b)
  {
    FaultsAlongConcat(ws, a, b);
    MessagesConcat(ws, quote, FaultsAlong(ws, a), FaultsAlong(ws, b));
  }

  lemma {:induction false} MessagesForgetOrder(ws: Workspace, quote: string -> string, a: seq<Path>, b: seq<Path>)
    requires multiset(a) == multiset(b)
    ensures multiset(MessagesAlong(ws, quote, a)) == multiset(MessagesAlong(ws, quote, b))
    decreases |a|
  {
    SameElements(a, b);
    if a != [] {
      assert a[0] in b;
      var i :| 0 <= i < |b| && b[i] == a[0];
      var front, back := b[..i], b[i + 1..];
      assert a == [a[0]] + a[1..] && b == front + ([a[0]] + back);
      WithoutOne(a, front, back);
      MessagesForgetOrder(ws, quote, a[1..], front + back);
      hide MessagesAlong;
      MessagesAlongConcat(ws, quote, [a[0]], a[1..]);
      MessagesAlongConcat(ws, quote, front, back);
      MessagesAlongConcat(ws, quote, front, [a[0]] + back);
      MessagesAlongConcat(ws, quote, [a[0]], back);
    }
  }

  lemma {:induction false} SameDistinctElements(a: seq<Path>, b: seq<Path>)
    requires Distinct(a) && Distinct(b) && forall c :: c in a <==> c in b
    ensures multiset(a) == multiset(b)
  {
    forall c ensures multiset(a)[c] == multiset(b)[c] {
      OnlyOnce(a, c);
      OnlyOnce(b, c);
      assert c in a <==> c in multiset(a);
      assert c in b <==> c in multiset(b);
    }
  }

  /** The configs reachable along good references, each once, in some order. */
  ghost predicate VisitOrder(ws: Workspace, order: seq<Path>) {
    Distinct(order) && forall c :: c in order <==> EverVisited(ws, c)
  }

  /** Whatever order the configs are handled in, the sorted report is the same. */
  lemma ReportForgetsOrder(ws: Workspace, quote: string -> string, order: seq<Path>, other: seq<Path>)
    requires VisitOrder(ws, order) && VisitOrder(ws, other)
    ensures Sort(MessagesAlong(ws, quote, order), CompareText) == Sort(MessagesAlong(ws, quote, other), CompareText)
  {
    SameDistinctElements(order, other);
    MessagesForgetOrder(ws, quote, order, other);
    CompareTextCompares();
    hide CompareText, MessagesAlong;
    SortForgetsOrder(MessagesAlong(ws, quote, order), MessagesAlong(ws, quote, other), CompareText);
  }

  /**
   The sorted diagnostics: those of exactly the configs reachable along good references, for every
   order of handling them; none exactly when every reference reachable from the aggregates is
   face-consistent.
   */
  method CollectProjectReferenceFaceViolations(ws: Workspace, quote: string -> string) returns (report: seq<string>)
    ensures forall order :: VisitOrder(ws, order) ==> report == Sort(MessagesAlong(ws, quote, order), CompareText)
    ensures exists order :: VisitOrder(ws, order)
    ensures report == [] <==> Isolated(ws)
  {
    var violations;
    ghost var order;
    violations, order := Traverse(ws);
    assert VisitOrder(ws, order);
    var texts := Messages(ws, quote, violations);
    hide Isolated, EverVisited, FaultsAlong;
    report := Sort(texts, CompareText);
    SortKeepsElements(texts, CompareText);
    SameElements(report, texts);
    forall other | VisitOrder(ws, other) ensures report == Sort(MessagesAlong(ws, quote, other), CompareText) {
      ReportForgetsOrder(ws, quote, order, other);
    }
  }
}

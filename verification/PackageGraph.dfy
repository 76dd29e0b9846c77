/**
 Dependency-safe ordering of workspace packages (docker/support/scripts/package-graph.ts).

 Packages leave in layers: a layer holds every remaining package whose dependencies have
 all left, sorted by `ComparePackages`.  The locale collation is a parameter.
 */
module PackageGraph {
  import opened Wrappers
  import opened Digraph
  import opened Sequences
  import opened Numbers

  datatype Package = Package(short: string, name: string, group: string, rel: string, deps: seq<string>)

  type Collation = (string, string) -> int

  // ---------------------------------------------------------------- comparison

  function GroupRank(groupOrder: seq<string>, group: string): int {
    var i := IndexOf(groupOrder, group);
    if i == -1 then MAX_SAFE_INTEGER else i
  }

  function ComparePackages(a: Package, b: Package, groupOrder: seq<string>, collate: Collation): int {
    var byRank := GroupRank(groupOrder, a.group) - GroupRank(groupOrder, b.group);
    if byRank != 0 then byRank
    else if collate(a.group, b.group) != 0 then collate(a.group, b.group)
    else collate(a.short, b.short)
  }

  /** The comparator of the sort. */
  function PackageOrder(groupOrder: seq<string>, collate: Collation): (Package, Package) -> int {
    (a: Package, b: Package) => ComparePackages(a, b, groupOrder, collate)
  }

  /** A collation as `localeCompare` provides it: a consistent order whose sign flips with its arguments. */
  ghost predicate Consistent(collate: Collation) {
    && Comparator(collate)
    && (forall a, b :: collate(a, b) == 0 <==> collate(b, a) == 0)
    && (forall a, b :: collate(a, b) < 0 <==> collate(b, a) > 0)
  }

  /** The package comparison inherits consistency, and ties only packages whose names tie. */
  lemma ComparePackagesIsConsistent(groupOrder: seq<string>, collate: Collation)
    requires Consistent(collate)
    ensures Comparator(PackageOrder(groupOrder, collate))
    ensures forall a: Package, b: Package ::
              ComparePackages(a, b, groupOrder, collate) <= 0 && ComparePackages(b, a, groupOrder, collate) <= 0
              ==> collate(a.short, b.short) == 0
  {
    hide GroupRank;
    forall a: Package, b: Package, c: Package
      | ComparePackages(a, b, groupOrder, collate) <= 0 && ComparePackages(b, c, groupOrder, collate) <= 0
      ensures ComparePackages(a, c, groupOrder, collate) <= 0
    {
      assert collate(a.group, b.group) <= 0 && collate(b.group, c.group) <= 0 ==> collate(a.group, c.group) <= 0;
      assert collate(c.group, b.group) <= 0 && collate(b.group, a.group) <= 0 ==> collate(c.group, a.group) <= 0;
      assert collate(b.group, c.group) <= 0 && collate(c.group, a.group) <= 0 ==> collate(b.group, a.group) <= 0;
      assert collate(c.group, a.group) <= 0 && collate(a.group, b.group) <= 0 ==> collate(c.group, b.group) <= 0;
      assert collate(a.short, b.short) <= 0 && collate(b.short, c.short) <= 0 ==> collate(a.short, c.short) <= 0;
    }
  }

  /** The group stands at that place of the list, and not before. */
  ghost predicate StandsAt(groupOrder: seq<string>, group: string, i: nat) {
    i < |groupOrder| && groupOrder[i] == group && group !in groupOrder[..i]
  }

  /** The first group comes before the second: earlier in the list, or listed where the other is not. */
  ghost predicate GroupComesFirst(groupOrder: seq<string>, first: string, second: string) {
    exists i: nat :: StandsAt(groupOrder, first, i) && second !in groupOrder[..i + 1]
  }

  lemma RankIsThePlace(groupOrder: seq<string>, group: string)
    ensures forall i: nat :: StandsAt(groupOrder, group, i) ==> GroupRank(groupOrder, group) == i
    ensures group !in groupOrder ==> GroupRank(groupOrder, group) == 9007199254740991
  {
    forall i: nat | StandsAt(groupOrder, group, i) ensures IndexOf(groupOrder, group) == i {
      IndexIsFirst(groupOrder, group, i);
    }
  }

  lemma {:induction false} IndexIsFirst(groupOrder: seq<string>, group: string, i: nat)
    requires StandsAt(groupOrder, group, i)
    ensures IndexOf(groupOrder, group) == i
  {
    if i > 0 {
      assert groupOrder[0] in groupOrder[..i] && groupOrder[1..][..i - 1] == groupOrder[..i][1..];
      IndexIsFirst(groupOrder[1..], group, i - 1);
    }
  }

  /** What is not among the first places stands later or nowhere. */
  lemma {:induction false} IndexIsLater(groupOrder: seq<string>, group: string, i: nat)
    requires i <= |groupOrder| && group !in groupOrder[..i]
    ensures IndexOf(groupOrder, group) == -1 || IndexOf(groupOrder, group) >= i
  {
    if i > 0 {
      assert groupOrder[0] in groupOrder[..i] && groupOrder[1..][..i - 1] == groupOrder[..i][1..];
      IndexIsLater(groupOrder[1..], group, i - 1);
    }
  }

  /**
   The caller's group order decides first; where it does not tell the groups apart the collation of
   the group names does, and then that of the short names.
   */
  lemma GroupsDecideFirst(a: Package, b: Package, groupOrder: seq<string>, collate: Collation)
    requires |groupOrder| <= 9007199254740991
    ensures GroupComesFirst(groupOrder, a.group, b.group) ==>
              ComparePackages(a, b, groupOrder, collate) < 0 && ComparePackages(b, a, groupOrder, collate) > 0
    ensures a.group !in groupOrder && b.group !in groupOrder && collate(a.group, b.group) != 0 ==>
              ComparePackages(a, b, groupOrder, collate) == collate(a.group, b.group)
    ensures (a.group == b.group || (a.group !in groupOrder && b.group !in groupOrder))
            && collate(a.group, b.group) == 0 ==>
              ComparePackages(a, b, groupOrder, collate) == collate(a.short, b.short)
  {
    RankIsThePlace(groupOrder, a.group);
    RankIsThePlace(groupOrder, b.group);
    if i: nat :| StandsAt(groupOrder, a.group, i) && b.group !in groupOrder[..i + 1] {
      IndexIsLater(groupOrder, b.group, i + 1);
    }
  }

  // ---------------------------------------------------------------- entries and their graph

  function Shorts(packages: seq<Package>): set<string> {
    set p | p in packages :: p.short
  }

  ghost predicate UniqueShorts(packages: seq<Package>) {
    forall i, j :: 0 <= i < j < |packages| ==> packages[i].short != packages[j].short
  }

  function Position(entries: seq<Package>, short: string): (i: nat)
    ensures i <= |entries|
    ensures i < |entries| ==> entries[i].short == short
    ensures i == |entries| <==> short !in Shorts(entries)
  {
    if entries == [] then 0
    else if entries[0].short == short then 0
    else
      var i := Position(entries[1..], short);
      assert entries == [entries[0]] + entries[1..];
      i + 1
  }

  /**
   The insertion-ordered table of packages by short name; a repeated name keeps its place and takes the later
   package.
   */
  function Entries(packages: seq<Package>): (entries: seq<Package>)
    ensures UniqueShorts(entries)
  {
    if packages == [] then []
    else
      var before := Entries(packages[..|packages| - 1]);
      var last := packages[|packages| - 1];
      var i := Position(before, last.short);
      if i < |before| then before[i := last]
      else
        assert forall j :: 0 <= j < |before| ==> before[j] in before && before[j].short in Shorts(before);
        before + [last]
  }

  /** No later package has its short name. */
  ghost predicate IsLast(packages: seq<Package>, p: Package) {
    exists i ::
      0 <= i < |packages| && packages[i] == p && forall j :: i < j < |packages| ==> packages[j].short != p.short
  }

  lemma IsLastInLonger(before: seq<Package>, last: Package, p: Package)
    ensures IsLast(before + [last], p) <==> p == last || (IsLast(before, p) && p.short != last.short)
  {
    var packages := before + [last];
    assert packages[|before|] == last;
    if i :| 0 <= i < |before| && before[i] == p && forall j :: i < j < |before| ==> before[j].short != p.short {
      if p.short != last.short {
        assert packages[i] == p;
        forall j | i < j < |packages| ensures packages[j].short != p.short {
          assert j < |before| ==> packages[j] == before[j];
        }
      }
    }
    if i :| 0 <= i < |packages| && packages[i] == p && forall j :: i < j < |packages| ==> packages[j].short != p.short {
      if i < |before| {
        assert before[i] == p;
        forall j | i < j < |before| ensures before[j].short != p.short {
          assert before[j] == packages[j];
        }
      }
    }
  }

  /** The table holds, of the packages with one short name, the last. */
  lemma {:induction false} EntriesAreTheLast(packages: seq<Package>, p: Package)
    ensures p in Entries(packages) <==> IsLast(packages, p)
  {
    if packages != [] {
      var before, last := packages[..|packages| - 1], packages[|packages| - 1];
      EntriesAreTheLast(before, p);
      EntriesReplace(Entries(before), last, p);
      assert packages == before + [last];
      IsLastInLonger(before, last, p);
    }
  }

  lemma EntriesReplace(entries: seq<Package>, last: Package, p: Package)
    requires UniqueShorts(entries)
    ensures var i := Position(entries, last.short);
            var more := if i < |entries| then entries[i := last] else entries + [last];
            p in more <==> p == last || (p in entries && p.short != last.short)
  {
    var i := Position(entries, last.short);
    if i < |entries| {
      var more := entries[i := last];
      assert more[i] == last;
      forall k | 0 <= k < |entries| && k != i ensures more[k] == entries[k] && more[k].short != last.short {
      }
      if p in entries && p.short != last.short {
        var k :| 0 <= k < |entries| && entries[k] == p;
        assert more[k] == p;
      }
    } else if p in entries {
      assert p.short in Shorts(entries);
    }
  }

  ghost predicate FirstGiven(packages: seq<Package>, i: nat) {
    i < |packages| && forall k :: 0 <= k < i ==> packages[k].short != packages[i].short
  }

  /** The short names stand in the table in the order in which each was first given. */
  lemma {:induction false} EntriesStandAsFirstGiven(packages: seq<Package>, i: nat, j: nat)
    requires i < j && FirstGiven(packages, i) && FirstGiven(packages, j)
    ensures var table := Entries(packages);
            Position(table, packages[i].short) < Position(table, packages[j].short) < |table|
  {
    if j == |packages| - 1 {
      NewestStandsLast(packages, i);
    } else {
      var before := packages[..|packages| - 1];
      EntriesStandAsFirstGiven(before, i, j);
      hide Position, Shorts, UniqueShorts;
      GivenStaysInPlace(packages, i);
      GivenStaysInPlace(packages, j);
    }
  }

  lemma GivenStaysInPlace(packages: seq<Package>, i: nat)
    requires i < |packages| - 1
    ensures var before := Entries(packages[..|packages| - 1]);
            Position(Entries(packages), packages[i].short) == Position(before, packages[i].short) < |before|
            && |before| <= |Entries(packages)|
  {
    var before, last := packages[..|packages| - 1], packages[|packages| - 1];
    EntriesHoldTheNames(before);
    GivenIsHeld(before, i);
    PlaceIsKept(Entries(before), last, before[i].short);
  }

  lemma NewestStandsLast(packages: seq<Package>, i: nat)
    requires i < |packages| - 1 && FirstGiven(packages, |packages| - 1)
    ensures var table := Entries(packages);
            Position(table, packages[i].short) < Position(table, packages[|packages| - 1].short) < |table|
  {
    var before, last := packages[..|packages| - 1], packages[|packages| - 1];
    EntriesHoldTheNames(before);
    GivenIsHeld(before, i);
    FirstGivenIsNew(packages, |packages| - 1);
    hide Shorts, UniqueShorts;
    NewStandsLast(Entries(before), last, before[i].short);
  }

  lemma GivenIsHeld(packages: seq<Package>, i: nat)
    requires i < |packages|
    ensures packages[i].short in Shorts(packages)
  {
    assert packages[i] in packages;
  }

  lemma FirstGivenIsNew(packages: seq<Package>, j: nat)
    requires FirstGiven(packages, j)
    ensures packages[j].short !in Shorts(packages[..j])
  {
  }

  lemma NewStandsLast(table: seq<Package>, last: Package, s: string)
    requires UniqueShorts(table) && s in Shorts(table) && last.short !in Shorts(table)
    ensures Position(table + [last], s) < Position(table + [last], last.short) == |table|
    ensures Position(table, last.short) == |table|
  {
    PlaceIsKept(table, last, s);
    var more := table + [last];
    assert more[|table|] == last && last in more && last.short in Shorts(more);
    forall k | 0 <= k < |table| ensures more[k].short != last.short {
      assert table[k] in table;
    }
  }

  lemma {:induction false} EntriesHoldTheNames(packages: seq<Package>)
    ensures Shorts(Entries(packages)) == Shorts(packages)
  {
    if packages != [] {
      var before, last := packages[..|packages| - 1], packages[|packages| - 1];
      EntriesHoldTheNames(before);
      assert packages == before + [last];
      forall p ensures p in Entries(packages) <==> p == last || (p in Entries(before) && p.short != last.short) {
        EntriesReplace(Entries(before), last, p);
      }
      hide Entries;
      forall s ensures s in Shorts(Entries(packages)) <==> s in Shorts(packages) {
        assert s in Shorts(packages) <==> s == last.short || s in Shorts(before);
        assert last in Entries(packages);
      }
    }
  }

  lemma PlaceIsKept(table: seq<Package>, last: Package, s: string)
    requires UniqueShorts(table) && s in Shorts(table)
    ensures var i := Position(table, last.short);
            var more := if i < |table| then table[i := last] else table + [last];
            Position(more, s) == Position(table, s)
  {
    var i := Position(table, last.short);
    var more := if i < |table| then table[i := last] else table + [last];
    var place := Position(table, s);
    assert more[place].short == s;
    assert more[place] in more && s in Shorts(more);
    assert UniqueShorts(more) by {
      if i == |table| {
        assert forall k :: 0 <= k < |table| ==> table[k].short in Shorts(table);
      }
    }
  }

  lemma {:induction false} UniqueEntries(packages: seq<Package>)
    requires UniqueShorts(packages)
    ensures Entries(packages) == packages
  {
    if packages != [] {
      var before, last := packages[..|packages| - 1], packages[|packages| - 1];
      UniqueEntries(before);
      assert last.short !in Shorts(before) by {
      }
      assert packages == before + [last];
    }
  }

  function DependencyGraph(entries: seq<Package>): Graph {
    map s | s in Shorts(entries) :: entries[Position(entries, s)].deps
  }

  lemma GraphOf(entries: seq<Package>, p: Package)
    requires UniqueShorts(entries) && p in entries
    ensures p.short in DependencyGraph(entries) && DependencyGraph(entries)[p.short] == p.deps
  {
    assert p.short in Shorts(entries);
    var i := Position(entries, p.short);
    var j :| 0 <= j < |entries| && entries[j] == p;
    assert i == j;
  }

  // ---------------------------------------------------------------- layers

  /** Every dependency chain that starts at `x` stays among the packages and has at most `k` of them. */
  ghost predicate Below(g: Graph, x: string, k: nat)
    decreases k
  {
    x in g && k > 0 && forall d :: d in g[x] ==> Below(g, d, k - 1)
  }

  /** The layer of a package: the number of packages on its longest dependency chain. */
  ghost predicate InLayer(g: Graph, x: string, k: nat) {
    k > 0 && Below(g, x, k) && !Below(g, x, k - 1)
  }

  lemma {:induction false} BelowIsMonotone(g: Graph, x: string, j: nat, k: nat)
    requires Below(g, x, j) && j <= k
    ensures Below(g, x, k)
    decreases k
  {
    forall d | d in g[x] ensures Below(g, d, k - 1) {
      BelowIsMonotone(g, d, j - 1, k - 1);
    }
  }

  lemma LayersAreUnique(g: Graph, x: string, j: nat, k: nat)
    requires InLayer(g, x, j) && InLayer(g, x, k)
    ensures j == k
  {
    if j < k {
      BelowIsMonotone(g, x, j, k - 1);
    } else if k < j {
      BelowIsMonotone(g, x, k, j - 1);
    }
  }

  ghost predicate ChainFrom(g: Graph, x: string, p: seq<string>) {
    p != [] && p[0] == x && Walk(g, p)
  }

  lemma {:induction false} ChainsAreBounded(g: Graph, x: string, k: nat, p: seq<string>)
    requires Below(g, x, k) && ChainFrom(g, x, p)
    ensures |p| <= k && forall y :: y in p ==> y in g
    decreases k
  {
    if |p| > 1 {
      assert Edge(g, p[0], p[0 + 1]);
      forall i | 0 <= i < |p[1..]| - 1 ensures Edge(g, p[1..][i], p[1..][i + 1]) {
        assert Edge(g, p[i + 1], p[i + 1 + 1]);
      }
      ChainsAreBounded(g, p[1], k - 1, p[1..]);
      assert p == [p[0]] + p[1..];
    }
  }

  lemma {:induction false} LongChainExists(g: Graph, x: string, k: nat) returns (p: seq<string>)
    requires !Below(g, x, k)
    ensures ChainFrom(g, x, p) && (|p| == k + 1 || p[|p| - 1] !in g)
    decreases k
  {
    if x !in g || k == 0 {
      p := [x];
    } else {
      var d :| d in g[x] && !Below(g, d, k - 1);
      var rest := LongChainExists(g, d, k - 1);
      p := [x] + rest;
      forall i | 0 <= i < |p| - 1 ensures Edge(g, p[i], p[i + 1]) {
        if i > 0 {
          assert Edge(g, rest[i - 1], rest[i - 1 + 1]);
        }
      }
    }
  }

  /** The layer is the length of the longest chain: one chain attains it, none exceeds it or leaves the packages. */
  lemma LayerIsLongestChain(g: Graph, x: string, k: nat) returns (longest: seq<string>)
    requires InLayer(g, x, k)
    ensures ChainFrom(g, x, longest) && |longest| == k
    ensures forall p :: ChainFrom(g, x, p) ==> |p| <= k && forall y :: y in p ==> y in g
  {
    forall p | ChainFrom(g, x, p) ensures |p| <= k && forall y :: y in p ==> y in g {
      ChainsAreBounded(g, x, k, p);
    }
    longest := LongChainExists(g, x, k - 1);
    assert longest[|longest| - 1] in longest;
  }

  ghost predicate LayerOrder(g: Graph, compare: (Package, Package) -> int, a: Package, b: Package) {
    exists i: nat, j: nat :: InLayer(g, a.short, i) && InLayer(g, b.short, j) &&
        (i < j || (i == j && compare(a, b) <= 0))
  }

  /** Ordered by layer, and inside a layer by comparison. */
  ghost predicate Layered(g: Graph, compare: (Package, Package) -> int, out: seq<Package>) {
    && (forall p :: p in out ==> exists k: nat :: InLayer(g, p.short, k))
    && SortedBy(out, (a, b) => LayerOrder(g, compare, a, b))
  }

  /** The layer of a package, or 0 when it has none. */
  ghost function Depth(g: Graph, x: string): (k: nat)
    ensures (exists j: nat :: InLayer(g, x, j)) ==> InLayer(g, x, k)
  {
    if exists j: nat :: InLayer(g, x, j) then
      var j: nat :| InLayer(g, x, j);
      j
    else 0
  }

  ghost function ByLayer(g: Graph, compare: (Package, Package) -> int): (Package, Package) -> int {
    (a: Package, b: Package) =>
      if Depth(g, a.short) != Depth(g, b.short) then Depth(g, a.short) - Depth(g, b.short) else compare(a, b)
  }

  /** The whole sort in one: the packages sorted stably by layer and comparison. */
  ghost function Result(packages: seq<Package>, compare: (Package, Package) -> int): seq<Package> {
    Sort(Entries(packages), ByLayer(DependencyGraph(Entries(packages)), compare))
  }

  /** An order in which every package comes after all its dependencies. */
  ghost predicate DependencyOrder(entries: seq<Package>, order: seq<Package>) {
    && multiset(order) == multiset(entries)
    && forall j, d :: 0 <= j < |order| && d in order[j].deps ==> d in Shorts(order[..j])
  }

  lemma LayeredIsDependencyOrder(entries: seq<Package>, compare: (Package, Package) -> int, out: seq<Package>)
    requires UniqueShorts(entries) && multiset(out) == multiset(entries)
    requires Layered(DependencyGraph(entries), compare, out)
    ensures DependencyOrder(entries, out)
  {
    var g := DependencyGraph(entries);
    SameElements(out, entries);
    forall j, d | 0 <= j < |out| && d in out[j].deps ensures d in Shorts(out[..j]) {
      var p := out[j];
      assert p in out;
      GraphOf(entries, p);
      var k: nat :| InLayer(g, p.short, k);
      assert Below(g, d, k - 1);
      var q := entries[Position(entries, d)];
      assert q in entries && q in out;
      var i :| 0 <= i < |out| && out[i] == q;
      DependencyIsLower(g, p.short, d, k);
      if i >= j {
        LowerLayersComeFirst(g, compare, out, i, j, k);
      }
      assert q in out[..j];
    }
  }

  lemma DependencyIsLower(g: Graph, x: string, d: string, k: nat)
    requires InLayer(g, x, k) && d in g[x]
    ensures forall j: nat :: InLayer(g, d, j) ==> j < k
  {
    forall j: nat | InLayer(g, d, j) ensures j < k {
      if j >= k {
        BelowIsMonotone(g, d, k - 1, j - 1);
      }
    }
  }

  lemma LowerLayersComeFirst(
      g: Graph, compare: (Package, Package) -> int, out: seq<Package>, i: nat, j: nat, k: nat)
    requires Layered(g, compare, out) && j <= i < |out| && InLayer(g, out[j].short, k)
    ensures exists b: nat :: InLayer(g, out[i].short, b) && k <= b
  {
    if i != j {
      assert LayerOrder(g, compare, out[j], out[i]);
      var a: nat, b: nat :| InLayer(g, out[j].short, a) && InLayer(g, out[i].short, b) && a <= b;
      LayersAreUnique(g, out[j].short, a, k);
    }
  }

  // ---------------------------------------------------------------- when an order exists

  /** A cycle, or a dependency that is no package. */
  ghost predicate Unorderable(g: Graph) {
    || !Acyclic(g)
    || exists x, d :: Edge(g, x, d) && d !in g
  }

  /** Packages none of which is free of dependencies on the others or on strangers. */
  ghost predicate Stuck(g: Graph, rest: set<string>) {
    && rest != {} && rest <= g.Keys
    && forall x :: x in rest ==> exists d :: d in g[x] && (d in rest || d !in g)
  }

  lemma StuckIsUnorderable(g: Graph, rest: set<string>)
    requires Stuck(g, rest)
    ensures Unorderable(g)
  {
    if forall x :: x in rest ==> HasSuccessorWithin(g, rest, x) {
      var p := StuckSetHasClosedWalk(g, rest);
    } else {
      var x :| x in rest && !HasSuccessorWithin(g, rest, x);
      var d :| d in g[x] && (d in rest || d !in g);
      assert Edge(g, x, d);
    }
  }

  lemma StuckNeedsMore(entries: seq<Package>, rest: set<string>, earlier: seq<Package>, p: Package)
    requires UniqueShorts(entries) && Stuck(DependencyGraph(entries), rest) && p in entries
    requires (forall q :: q in earlier ==> q in entries) && rest !! Shorts(earlier)
    requires forall d :: d in p.deps ==> d in Shorts(earlier)
    ensures p.short !in rest
  {
    var g := DependencyGraph(entries);
    GraphOf(entries, p);
    forall d | d in g[p.short] ensures d !in rest && d in g {
      var q :| q in earlier && q.short == d;
      GraphOf(entries, q);
    }
  }

  lemma {:induction false} StuckHasNoOrder(entries: seq<Package>, rest: set<string>, order: seq<Package>, n: nat)
    requires UniqueShorts(entries) && Stuck(DependencyGraph(entries), rest)
    requires DependencyOrder(entries, order) && n <= |order|
    ensures rest !! Shorts(order[..n])
    decreases n
  {
    hide Stuck;
    if n > 0 {
      StuckHasNoOrder(entries, rest, order, n - 1);
      SameElements(order, entries);
      assert order[n - 1] in order && forall q :: q in order[..n - 1] ==> q in order;
      StuckNeedsMore(entries, rest, order[..n - 1], order[n - 1]);
      assert order[..n] == order[..n - 1] + [order[n - 1]];
    }
  }

  /** What is stuck stays out of every dependency order, so there is none. */
  lemma StuckMeansNoOrder(entries: seq<Package>, rest: set<string>)
    requires UniqueShorts(entries) && Stuck(DependencyGraph(entries), rest)
    ensures !exists order :: DependencyOrder(entries, order)
  {
    var x :| x in rest;
    forall order ensures !DependencyOrder(entries, order) {
      if DependencyOrder(entries, order) {
        OrdersHoldEverything(entries, order, x);
        StuckHasNoOrder(entries, rest, order, |order|);
      }
    }
  }

  lemma OrdersHoldEverything(entries: seq<Package>, order: seq<Package>, x: string)
    requires DependencyOrder(entries, order) && x in Shorts(entries)
    ensures order[..|order|] == order && x in Shorts(order)
  {
    SameElements(order, entries);
    assert entries[Position(entries, x)] in entries;
  }

  // ---------------------------------------------------------------- the sort

  function NotPlaced(entries: seq<Package>, placed: set<string>): seq<Package> {
    Filter(entries, (p: Package) => p.short !in placed)
  }

  function Delete(remaining: seq<Package>, short: string): seq<Package> {
    Filter(remaining, (p: Package) => p.short != short)
  }

  function ReadyAmong(remaining: seq<Package>, placed: set<string>): seq<Package> {
    Filter(remaining, (p: Package) => forall d :: d in p.deps ==> d in placed)
  }

  lemma DeleteIsPlacing(entries: seq<Package>, placed: set<string>, short: string)
    ensures Delete(NotPlaced(entries, placed), short) == NotPlaced(entries, placed + {short})
  {
    FilterTwice(entries, (p: Package) => p.short !in placed, (p: Package) => p.short != short,
                (p: Package) => p.short !in placed + {short});
  }

  lemma {:induction false} DeletedElements(remaining: seq<Package>, p: Package)
    requires p in remaining && UniqueShorts(remaining)
    ensures multiset(Delete(remaining, p.short)) == multiset(remaining) - multiset{p}
  {
    var keep := (q: Package) => q.short != p.short;
    var first, rest := remaining[0], remaining[1..];
    assert remaining == [first] + rest;
    if first == p {
      forall q | q in rest ensures keep(q) {
        var i :| 0 <= i < |rest| && rest[i] == q;
        assert remaining[i + 1] == q;
      }
      FilterAll(rest, keep);
    } else {
      assert first.short != p.short by {
        var i :| 0 <= i < |remaining| && remaining[i] == p;
      }
      forall i, j | 0 <= i < j < |rest| ensures rest[i].short != rest[j].short {
        assert remaining[i + 1].short != remaining[j + 1].short;
      }
      DeletedElements(rest, p);
    }
  }

  lemma {:induction false} FilterKeepsUnique(s: seq<Package>, keep: Package -> bool)
    requires UniqueShorts(s)
    ensures UniqueShorts(Filter(s, keep))
  {
    if s != [] {
      var rest := s[1..];
      forall i, j | 0 <= i < j < |rest| ensures rest[i].short != rest[j].short {
        assert s[i + 1].short != s[j + 1].short;
      }
      FilterKeepsUnique(rest, keep);
      forall q | q in Filter(rest, keep) ensures q.short != s[0].short {
        var i :| 0 <= i < |rest| && rest[i] == q;
        assert s[i + 1] == q;
      }
    }
  }

  lemma SizesAdd(out: seq<Package>, remaining: seq<Package>, entries: seq<Package>)
    requires Balanced(entries, out, remaining)
    ensures |out| + |remaining| == |entries|
  {
    assert |multiset(out) + multiset(remaining)| == |multiset(entries)|;
  }

  lemma {:induction false} OccursOnce(s: seq<Package>, p: Package)
    requires UniqueShorts(s)
    ensures multiset(s)[p] <= 1
  {
    if s != [] {
      var rest := s[1..];
      assert s == [s[0]] + rest;
      forall i, j | 0 <= i < j < |rest| ensures rest[i].short != rest[j].short {
        assert s[i + 1].short != s[j + 1].short;
      }
      OccursOnce(rest, p);
      forall i | 0 <= i < |rest| ensures rest[i] != s[0] {
        assert s[0].short != s[i + 1].short;
      }
    }
  }

  lemma OccursTwice(t: seq<Package>, i: nat, j: nat)
    requires i < j < |t| && t[i] == t[j]
    ensures multiset(t)[t[i]] >= 2
  {
    assert t == t[..j] + t[j..];
    assert multiset(t) == multiset(t[..j]) + multiset(t[j..]);
    assert t[..j][i] in t[..j] && t[j..][0] in t[j..];
  }

  lemma ArrangementKeepsUnique(s: seq<Package>, t: seq<Package>)
    requires UniqueShorts(s) && multiset(s) == multiset(t)
    ensures UniqueShorts(t)
  {
    SameElements(s, t);
    forall i, j | 0 <= i < j < |t| ensures t[i].short != t[j].short {
      if t[i].short == t[j].short {
        assert t[i] in t && t[j] in t;
        OccursTwice(t, i, j);
        OccursOnce(s, t[i]);
        assert false;
      }
    }
  }

  ghost predicate Balanced(entries: seq<Package>, out: seq<Package>, remaining: seq<Package>) {
    multiset(out) + multiset(remaining) == multiset(entries)
  }

  lemma EmitOne(entries: seq<Package>, placed: set<string>, out: seq<Package>, pkg: Package)
    requires UniqueShorts(entries) && Balanced(entries, out, NotPlaced(entries, placed))
    requires pkg in entries && pkg.short !in placed
    ensures Delete(NotPlaced(entries, placed), pkg.short) == NotPlaced(entries, placed + {pkg.short})
    ensures Balanced(entries, out + [pkg], NotPlaced(entries, placed + {pkg.short}))
  {
    var remaining := NotPlaced(entries, placed);
    FilterKeepsUnique(entries, (p: Package) => p.short !in placed);
    DeletedElements(remaining, pkg);
    DeleteIsPlacing(entries, placed, pkg.short);
  }

  lemma NotYetEmitted(ready: seq<Package>, i: nat)
    requires UniqueShorts(ready) && i < |ready|
    ensures ready[i].short !in Shorts(ready[..i])
    ensures ready[..i + 1] == ready[..i] + [ready[i]]
    ensures Shorts(ready[..i + 1]) == Shorts(ready[..i]) + {ready[i].short}
  {
    forall q | q in ready[..i] ensures q.short != ready[i].short {
      var j :| 0 <= j < i && ready[j] == q;
    }
  }

  /** Emitting one layer: every ready package moves from the remaining ones to the output, in order. */
  method EmitLayer(entries: seq<Package>, ready: seq<Package>, placed: set<string>, out: seq<Package>)
    returns (remaining': seq<Package>, placed': set<string>, out': seq<Package>)
    requires UniqueShorts(entries) && UniqueShorts(ready)
    requires forall p :: p in ready ==> p in NotPlaced(entries, placed)
    requires Balanced(entries, out, NotPlaced(entries, placed))
    ensures out' == out + ready && placed' == placed + Shorts(ready) && remaining' == NotPlaced(entries, placed')
    ensures Balanced(entries, out', remaining')
  {
    hide NotPlaced, Delete, UniqueShorts, Balanced;
    remaining', placed', out' := NotPlaced(entries, placed), placed, out;
    for i := 0 to |ready|
      invariant out' == out + ready[..i] && placed' == placed + Shorts(ready[..i])
      invariant remaining' == NotPlaced(entries, placed')
      invariant Balanced(entries, out', remaining')
    {
      var pkg := ready[i];
      NotYetEmitted(ready, i);
      assert pkg in ready;
      RemainingAreEntries(entries, placed, pkg);
      EmitOne(entries, placed', out', pkg);
      out' := out' + [pkg];
      placed' := placed' + {pkg.short};
      remaining' := Delete(remaining', pkg.short);
    }
    assert ready[..|ready|] == ready;
  }

  lemma RemainingAreEntries(entries: seq<Package>, placed: set<string>, p: Package)
    requires p in NotPlaced(entries, placed)
    ensures p in entries && p.short !in placed
  {
  }

  /** The packages placed after `k` rounds are exactly those with no chain longer than `k`. */
  ghost predicate PlacedInRounds(g: Graph, placed: set<string>, k: nat) {
    forall x :: x in placed <==> Below(g, x, k)
  }

  lemma NextRound(entries: seq<Package>, placed: set<string>, k: nat)
    requires UniqueShorts(entries) && PlacedInRounds(DependencyGraph(entries), placed, k)
    ensures PlacedInRounds(
        DependencyGraph(entries), placed + Shorts(ReadyAmong(NotPlaced(entries, placed), placed)), k + 1)
    ensures forall p :: p in ReadyAmong(NotPlaced(entries, placed), placed) ==>
              InLayer(DependencyGraph(entries), p.short, k + 1)
  {
    var g := DependencyGraph(entries);
    var ready := ReadyAmong(NotPlaced(entries, placed), placed);
    forall p | p in ready ensures InLayer(g, p.short, k + 1) {
      GraphOf(entries, p);
    }
    forall x ensures x in placed + Shorts(ready) <==> Below(g, x, k + 1) {
      if x in placed {
        BelowIsMonotone(g, x, k, k + 1);
      } else if Below(g, x, k + 1) {
        var p := entries[Position(entries, x)];
        assert p in entries;
        GraphOf(entries, p);
        assert p in ready;
      }
    }
  }

  ghost predicate LayersUpTo(g: Graph, out: seq<Package>, k: nat) {
    forall p :: p in out ==> exists j: nat :: j <= k && InLayer(g, p.short, j)
  }

  lemma AppendLayer(
      g: Graph, compare: (Package, Package) -> int, out: seq<Package>, ready: seq<Package>, k: nat)
    requires Layered(g, compare, out)
    requires LayersUpTo(g, out, k)
    requires forall p :: p in ready ==> InLayer(g, p.short, k + 1)
    requires SortedBy(ready, (a, b) => compare(a, b) <= 0)
    ensures Layered(g, compare, out + ready)
    ensures LayersUpTo(g, out + ready, k + 1)
  {
    var all := out + ready;
    forall i, j | 0 <= i < j < |all| ensures LayerOrder(g, compare, all[i], all[j]) {
      if j < |out| {
        assert LayerOrder(g, compare, out[i], out[j]);
      } else {
        assert all[j] == ready[j - |out|] && all[j] in ready;
        if i < |out| {
          assert all[i] in out;
          var a: nat :| a <= k && InLayer(g, all[i].short, a);
        } else {
          assert all[i] == ready[i - |out|] && all[i] in ready;
        }
      }
    }
    forall p | p in all ensures exists j: nat :: j <= k + 1 && InLayer(g, p.short, j) {
      if p in out {
        var a: nat :| a <= k && InLayer(g, p.short, a);
      }
    }
  }

  lemma NothingReadyIsStuck(entries: seq<Package>, placed: set<string>, remaining: seq<Package>)
    requires UniqueShorts(entries) && remaining == NotPlaced(entries, placed) && remaining != []
    requires placed <= Shorts(entries) && ReadyAmong(remaining, placed) == []
    ensures Stuck(DependencyGraph(entries), Shorts(remaining))
  {
    var g := DependencyGraph(entries);
    assert remaining[0] in remaining && remaining[0].short in Shorts(remaining);
    forall x | x in Shorts(remaining) ensures x in g && exists d :: d in g[x] && (d in Shorts(remaining) || d !in g) {
      var p :| p in remaining && p.short == x;
      GraphOf(entries, p);
      assert p !in ReadyAmong(remaining, placed);
      var d :| d in p.deps && d !in placed;
      if d in g {
        var q := entries[Position(entries, d)];
        assert q in entries && q in remaining;
      }
    }
  }

  /**
   A permutation of the packages in layers, or, exactly when no dependency order exists, the
   names that could not be placed: those from which some chain never ends or leaves the packages.
   */
  method TopoSort(packages: seq<Package>, groupOrder: seq<string>, collate: Collation)
    returns (r: Result<seq<Package>, seq<string>>)
    requires Consistent(collate)
    ensures r.Success? ==> multiset(r.value) == multiset(Entries(packages))
    ensures r.Success? ==>
              Layered(DependencyGraph(Entries(packages)), PackageOrder(groupOrder, collate), r.value)
    ensures r.Success? ==> DependencyOrder(Entries(packages), r.value)
    ensures r.Success? ==> r.value == Result(packages, PackageOrder(groupOrder, collate))
    ensures r.Failure? ==> r.error != [] && r.error == Names(Unplaceable(Entries(packages)))
    ensures r.Success? <==> exists order :: DependencyOrder(Entries(packages), order)
  {
    hide Stuck, NotPlaced, ReadyAmong, Balanced, Layered, DependencyOrder, PlacedInRounds, LayersUpTo, Stable, Result;
    var compare := PackageOrder(groupOrder, collate);
    var entries := Entries(packages);
    ghost var g := DependencyGraph(entries);
    var remaining, placed, out := entries, {}, [];
    NothingPlaced(entries, compare);
    ghost var k: nat := 0;
    while |remaining| > 0
      invariant remaining == NotPlaced(entries, placed) && placed <= Shorts(entries)
      invariant Balanced(entries, out, remaining)
      invariant PlacedInRounds(g, placed, k) && Layered(g, compare, out) && LayersUpTo(g, out, k)
      invariant Stable(entries, out, ByLayer(g, compare))
    {
      var ready := Sort(ReadyAmong(remaining, placed), compare);
      SortedReady(entries, placed, groupOrder, collate);
      if |ready| == 0 {
        NothingReadyIsStuck(entries, placed, remaining);
        StuckMeansNoOrder(entries, Shorts(remaining));
        RemainingIsUnplaceable(entries, placed, k);
        return Failure(Names(remaining));
      }
      NextRound(entries, placed, k);
      AppendLayer(g, compare, out, ready, k);
      AppendLayerKeepsOrder(entries, compare, out, placed, k);
      SizesAdd(out, remaining, entries);
      remaining, placed, out := EmitLayer(entries, ready, placed, out);
      SizesAdd(out, remaining, entries);
      k := k + 1;
    }
    AllPlaced(entries, out);
    LayeredIsDependencyOrder(entries, compare, out);
    ComparePackagesIsConsistent(groupOrder, collate);
    LayeredIsResult(packages, compare, out);
    return Success(out);
  }

  /** Of the ready packages and those already out, tied ones keep the order they had among the entries. */
  lemma AppendLayerKeepsOrder(
      entries: seq<Package>, compare: (Package, Package) -> int, out: seq<Package>, placed: set<string>, k: nat)
    requires UniqueShorts(entries) && PlacedInRounds(DependencyGraph(entries), placed, k)
    requires LayersUpTo(DependencyGraph(entries), out, k) &&
        Stable(entries, out, ByLayer(DependencyGraph(entries), compare))
    ensures Stable(entries, out + Sort(ReadyAmong(NotPlaced(entries, placed), placed), compare),
                   ByLayer(DependencyGraph(entries), compare))
  {
    var g := DependencyGraph(entries);
    var byLayer := ByLayer(g, compare);
    var unsorted := ReadyAmong(NotPlaced(entries, placed), placed);
    var ready := Sort(unsorted, compare);
    NextRound(entries, placed, k);
    SortKeepsElements(unsorted, compare);
    SameElements(ready, unsorted);
    forall x, y | Before(entries, x, y) && x in out + ready && y in out + ready && byLayer(x, y) <= 0 &&
        byLayer(y, x) <= 0
      ensures Before(out + ready, x, y)
    {
      BeforeInLonger(out, ready, x, y);
      if x in out && y in out {
        assert Before(out, x, y);
      } else {
        TiedLayersMeet(g, out, ready, k, x, y);
        ReadyKeepOrder(entries, compare, placed, x, y);
      }
    }
  }

  lemma TiedLayersMeet(g: Graph, out: seq<Package>, ready: seq<Package>, k: nat, x: Package, y: Package)
    requires LayersUpTo(g, out, k) && forall p :: p in ready ==> InLayer(g, p.short, k + 1)
    requires x in out + ready && y in out + ready && !(x in out && y in out) && Depth(g, x.short) == Depth(g, y.short)
    ensures x in ready && y in ready
  {
    forall p | p in out ensures Depth(g, p.short) <= k {
      var j: nat :| j <= k && InLayer(g, p.short, j);
      DepthIsLayer(g, p.short, j);
    }
    forall p | p in ready ensures Depth(g, p.short) == k + 1 {
      DepthIsLayer(g, p.short, k + 1);
    }
  }

  lemma ReadyKeepOrder(
      entries: seq<Package>, compare: (Package, Package) -> int, placed: set<string>, x: Package, y: Package)
    requires Before(entries, x, y) && compare(x, y) <= 0
    requires x in ReadyAmong(NotPlaced(entries, placed), placed) && y in ReadyAmong(NotPlaced(entries, placed), placed)
    ensures Before(Sort(ReadyAmong(NotPlaced(entries, placed), placed), compare), x, y)
  {
    var remaining := NotPlaced(entries, placed);
    FilterKeepsBefore(entries, (p: Package) => p.short !in placed, x, y);
    FilterKeepsBefore(remaining, (p: Package) => forall d :: d in p.deps ==> d in placed, x, y);
    var unsorted := ReadyAmong(remaining, placed);
    var i: nat, j: nat :| i < j < |unsorted| && unsorted[i] == x && unsorted[j] == y;
    SortIsStable(unsorted, compare, i, j);
  }

  /** Layered, and stable where packages tie: that is the stable sort by layer and comparison. */
  lemma LayeredIsResult(packages: seq<Package>, compare: (Package, Package) -> int, out: seq<Package>)
    requires Comparator(compare) && multiset(out) == multiset(Entries(packages))
    requires Layered(DependencyGraph(Entries(packages)), compare, out)
    requires Stable(Entries(packages), out, ByLayer(DependencyGraph(Entries(packages)), compare))
    ensures out == Result(packages, compare)
  {
    var entries := Entries(packages);
    var g := DependencyGraph(entries);
    var byLayer := ByLayer(g, compare);
    forall i, j | 0 <= i < j < |out| ensures byLayer(out[i], out[j]) <= 0 {
      assert out[i] in out && out[j] in out && LayerOrder(g, compare, out[i], out[j]);
      ByLayerDecides(g, compare, out[i], out[j]);
    }
    assert SortedBy(out, (a, b) => byLayer(a, b) <= 0);
    hide ByLayer, Stable, SortedBy, Comparator, DependencyGraph, Entries, UniqueShorts;
    StableSortIsUnique(entries, out, byLayer);
  }

  function Names(packages: seq<Package>): (names: seq<string>)
    ensures |names| == |packages| && forall i :: 0 <= i < |names| ==> names[i] == packages[i].short
  {
    seq(|packages|, i requires 0 <= i < |packages| => packages[i].short)
  }

  /** The packages whose dependency chains are not bounded, in the order of the table. */
  ghost function Unplaceable(entries: seq<Package>): seq<Package> {
    Filter(entries, (p: Package) => !Bottoms(DependencyGraph(entries), p.short))
  }

  lemma ReadyUnlessPlaced(entries: seq<Package>, placed: set<string>, p: Package)
    requires p in entries && forall d :: d in p.deps ==> d in placed
    ensures p.short in placed || p in ReadyAmong(NotPlaced(entries, placed), placed)
  {
  }

  /** When a round finds nothing ready, later rounds would not either. */
  lemma {:induction false} NoLaterRound(entries: seq<Package>, placed: set<string>, k: nat, j: nat, x: string)
    requires UniqueShorts(entries) && PlacedInRounds(DependencyGraph(entries), placed, k)
    requires ReadyAmong(NotPlaced(entries, placed), placed) == [] && Below(DependencyGraph(entries), x, j)
    ensures x in placed
    decreases j
  {
    var g := DependencyGraph(entries);
    forall d | d in g[x] ensures d in placed {
      NoLaterRound(entries, placed, k, j - 1, d);
    }
    var p := entries[Position(entries, x)];
    assert p in entries;
    GraphOf(entries, p);
    ReadyUnlessPlaced(entries, placed, p);
  }

  lemma RemainingIsUnplaceable(entries: seq<Package>, placed: set<string>, k: nat)
    requires UniqueShorts(entries) && PlacedInRounds(DependencyGraph(entries), placed, k)
    requires ReadyAmong(NotPlaced(entries, placed), placed) == []
    ensures NotPlaced(entries, placed) == Unplaceable(entries)
  {
    var g := DependencyGraph(entries);
    forall p | p in entries ensures p.short in placed <==> Bottoms(g, p.short) {
      if j: nat :| Below(g, p.short, j) {
        NoLaterRound(entries, placed, k, j, p.short);
      }
    }
    FilterAgree(entries, (p: Package) => p.short !in placed, (p: Package) => !Bottoms(g, p.short));
  }

  lemma NothingPlaced(entries: seq<Package>, compare: (Package, Package) -> int)
    ensures NotPlaced(entries, {}) == entries && Balanced(entries, [], entries)
    ensures PlacedInRounds(DependencyGraph(entries), {}, 0)
    ensures Layered(DependencyGraph(entries), compare, []) && LayersUpTo(DependencyGraph(entries), [], 0)
    ensures Stable(entries, [], ByLayer(DependencyGraph(entries), compare))
  {
    var placed: set<string> := {};
    FilterAll(entries, (p: Package) => p.short !in placed);
    assert multiset([]) + multiset(entries) == multiset(entries);
  }

  lemma AllPlaced(entries: seq<Package>, out: seq<Package>)
    requires Balanced(entries, out, [])
    ensures multiset(out) == multiset(entries)
  {
    assert multiset(out) + multiset([]) == multiset(out);
  }

  lemma SortedReady(entries: seq<Package>, placed: set<string>, groupOrder: seq<string>, collate: Collation)
    requires Consistent(collate) && UniqueShorts(entries)
    ensures var compare := PackageOrder(groupOrder, collate);
            var unsorted := ReadyAmong(NotPlaced(entries, placed), placed);
            var ready := Sort(unsorted, compare);
            && UniqueShorts(ready) && SortedBy(ready, (a, b) => compare(a, b) <= 0)
            && |ready| == |unsorted| && Shorts(ready) == Shorts(unsorted)
            && (forall p :: p in ready <==> p in unsorted)
            && (forall p :: p in ready ==> p in NotPlaced(entries, placed))
            && Shorts(ready) <= Shorts(entries)
  {
    var compare := PackageOrder(groupOrder, collate);
    ComparePackagesIsConsistent(groupOrder, collate);
    var remaining := NotPlaced(entries, placed);
    var unsorted := ReadyAmong(remaining, placed);
    var ready := Sort(unsorted, compare);
    SortKeepsElements(unsorted, compare);
    SortIsSorted(unsorted, compare);
    SameElements(ready, unsorted);
    FilterKeepsUnique(entries, (p: Package) => p.short !in placed);
    FilterKeepsUnique(remaining, (p: Package) => forall d :: d in p.deps ==> d in placed);
    ArrangementKeepsUnique(unsorted, ready);
  }

  lemma DistinctNamesDoNotTie(
      packages: seq<Package>, groupOrder: seq<string>, collate: Collation, compare: (Package, Package) -> int)
    requires Consistent(collate) && UniqueShorts(packages)
    requires forall p, q :: p in packages && q in packages && collate(p.short, q.short) == 0 ==> p.short == q.short
    requires forall p, q :: compare(p, q) == ComparePackages(p, q, groupOrder, collate)
    ensures TieFree(packages, compare)
  {
    ComparePackagesIsConsistent(groupOrder, collate);
    var g := DependencyGraph(packages);
    forall p, q | p in packages && q in packages ensures !Tie(g, compare, p, q) {
      if Tie(g, compare, p, q) {
        LayerOrderTies(g, compare, p, q);
      }
    }
  }

  lemma LayerOrderTies(g: Graph, compare: (Package, Package) -> int, p: Package, q: Package)
    requires LayerOrder(g, compare, p, q) && LayerOrder(g, compare, q, p)
    ensures compare(p, q) <= 0 && compare(q, p) <= 0
  {
    var a: nat, b: nat :| InLayer(g, p.short, a) && InLayer(g, q.short, b) && (a < b || (a == b && compare(p, q) <= 0));
    var c: nat, d: nat :| InLayer(g, q.short, c) && InLayer(g, p.short, d) && (c < d || (c == d && compare(q, p) <= 0));
    LayersAreUnique(g, p.short, a, d);
    LayersAreUnique(g, q.short, b, c);
  }

  /** Two packages of one layer that the comparison does not tell apart. */
  ghost predicate Tie(g: Graph, compare: (Package, Package) -> int, p: Package, q: Package) {
    p != q && LayerOrder(g, compare, p, q) && LayerOrder(g, compare, q, p)
  }

  lemma TieMeansSameLayer(g: Graph, compare: (Package, Package) -> int, p: Package, q: Package)
    ensures Tie(g, compare, p, q) <==>
              p != q && compare(p, q) <= 0 && compare(q, p) <= 0
              && exists k: nat :: InLayer(g, p.short, k) && InLayer(g, q.short, k)
  {
    if Tie(g, compare, p, q) {
      LayerOrderTies(g, compare, p, q);
      var a: nat, b: nat :| InLayer(g, p.short, a) && InLayer(g, q.short, b) && a <= b;
      var c: nat, d: nat :| InLayer(g, q.short, c) && InLayer(g, p.short, d) && c <= d;
      LayersAreUnique(g, p.short, a, d);
      LayersAreUnique(g, q.short, b, c);
    }
  }

  function Swap(packages: seq<Package>, i: nat, j: nat): seq<Package>
    requires i < |packages| && j < |packages|
  {
    packages[i := packages[j]][j := packages[i]]
  }

  ghost predicate TieFree(packages: seq<Package>, compare: (Package, Package) -> int) {
    forall p, q :: p in packages && q in packages ==> !Tie(DependencyGraph(packages), compare, p, q)
  }

  /** Every package has a layer, which is what it takes for the sort to succeed. */
  ghost predicate AllLayered(g: Graph, packages: seq<Package>) {
    forall p :: p in packages ==> exists k: nat :: InLayer(g, p.short, k)
  }

  /** The chains from the package are bounded. */
  ghost predicate Bottoms(g: Graph, x: string) {
    exists k: nat :: Below(g, x, k)
  }

  lemma {:induction false} DependenciesBelow(g: Graph, deps: seq<string>) returns (k: nat)
    requires forall d :: d in deps ==> Bottoms(g, d)
    ensures forall d :: d in deps ==> Below(g, d, k)
  {
    k := 0;
    if deps != [] {
      assert deps[0] in deps && forall d :: d in deps[1..] ==> d in deps;
      var j: nat :| Below(g, deps[0], j);
      var rest := DependenciesBelow(g, deps[1..]);
      k := if j <= rest then rest else j;
      forall d | d in deps ensures Below(g, d, k) {
        if d == deps[0] {
          BelowIsMonotone(g, d, j, k);
        } else {
          BelowIsMonotone(g, d, rest, k);
        }
      }
    }
  }

  lemma {:induction false} BelowHasLayer(g: Graph, x: string, k: nat) returns (j: nat)
    requires Below(g, x, k)
    ensures InLayer(g, x, j)
    decreases k
  {
    if Below(g, x, k - 1) {
      j := BelowHasLayer(g, x, k - 1);
    } else {
      j := k;
    }
  }

  /** A package without a layer leads to others without one, or out of the packages. */
  lemma UnboundedIsStuck(g: Graph, rest: set<string>)
    requires rest != {} && forall x :: x in rest <==> x in g && !Bottoms(g, x)
    ensures Stuck(g, rest)
  {
    forall x | x in rest ensures exists d :: d in g[x] && (d in rest || d !in g) {
      if forall d :: d in g[x] ==> Bottoms(g, d) {
        var k := DependenciesBelow(g, g[x]);
        assert Below(g, x, k + 1);
      } else {
        var d :| d in g[x] && !Bottoms(g, d);
        assert d in rest || d !in g;
      }
    }
  }

  /** The sort succeeds exactly when every package has a layer. */
  lemma OrderableIffAllLayered(packages: seq<Package>)
    requires UniqueShorts(packages)
    ensures (exists order :: DependencyOrder(packages, order)) <==> AllLayered(DependencyGraph(packages), packages)
  {
    var g := DependencyGraph(packages);
    if AllLayered(g, packages) {
      LayeredHasOrder(packages);
    } else {
      var rest := set x | x in g && !Bottoms(g, x);
      var p :| p in packages && forall k: nat :: !InLayer(g, p.short, k);
      GraphOf(packages, p);
      if k: nat :| Below(g, p.short, k) {
        var j := BelowHasLayer(g, p.short, k);
      }
      assert p.short in rest;
      UnboundedIsStuck(g, rest);
      StuckMeansNoOrder(packages, rest);
    }
  }

  lemma LayeredHasOrder(packages: seq<Package>)
    requires UniqueShorts(packages) && AllLayered(DependencyGraph(packages), packages)
    ensures exists order :: DependencyOrder(packages, order)
  {
    var g := DependencyGraph(packages);
    var compare := (a: Package, b: Package) => 0;
    var byLayer := ByLayer(g, compare);
    var out := Sort(packages, byLayer);
    SortIsSorted(packages, byLayer);
    SortKeepsElements(packages, byLayer);
    SameElements(out, packages);
    forall i, j | 0 <= i < j < |out| ensures LayerOrder(g, compare, out[i], out[j]) {
      assert out[i] in out && out[j] in out && byLayer(out[i], out[j]) <= 0;
      ByLayerDecides(g, compare, out[i], out[j]);
    }
    hide ByLayer;
    LayeredIsDependencyOrder(packages, compare, out);
  }

  lemma ByLayerDecides(g: Graph, compare: (Package, Package) -> int, p: Package, q: Package)
    requires (exists k: nat :: InLayer(g, p.short, k)) && (exists k: nat :: InLayer(g, q.short, k))
    ensures LayerOrder(g, compare, p, q) <==> ByLayer(g, compare)(p, q) <= 0
  {
    var a: nat :| InLayer(g, p.short, a);
    var b: nat :| InLayer(g, q.short, b);
    DepthIsLayer(g, p.short, a);
    DepthIsLayer(g, q.short, b);
    if LayerOrder(g, compare, p, q) {
      var i: nat, j: nat :| InLayer(g, p.short, i) && InLayer(g, q.short, j) &&
          (i < j || (i == j && compare(p, q) <= 0));
      LayersAreUnique(g, p.short, a, i);
      LayersAreUnique(g, q.short, b, j);
    }
  }

  lemma DepthIsLayer(g: Graph, x: string, k: nat)
    requires InLayer(g, x, k)
    ensures Depth(g, x) == k
  {
    LayersAreUnique(g, x, k, Depth(g, x));
  }

  /** The code's result for every order of the same packages. */
  ghost predicate SameForEveryOrder(packages: seq<Package>, compare: (Package, Package) -> int) {
    forall other :: multiset(other) == multiset(packages) ==> Result(other, compare) == Result(packages, compare)
  }

  lemma TieFreeIsCanonical(packages: seq<Package>, compare: (Package, Package) -> int, other: seq<Package>)
    requires UniqueShorts(packages) && Comparator(compare) && AllLayered(DependencyGraph(packages), packages)
    requires TieFree(packages, compare) && multiset(other) == multiset(packages)
    ensures Result(other, compare) == Result(packages, compare)
  {
    var g := DependencyGraph(packages);
    ArrangementKeepsUnique(packages, other);
    UniqueEntries(packages);
    UniqueEntries(other);
    SameGraph(packages, other);
    hide ByLayer, TieFree, AllLayered, Comparator, DependencyGraph, Entries, UniqueShorts;
    TieFreeTellsApart(packages, compare);
    SortForgetsOrder(packages, other, ByLayer(g, compare));
  }

  lemma TieFreeTellsApart(packages: seq<Package>, compare: (Package, Package) -> int)
    requires TieFree(packages, compare) && AllLayered(DependencyGraph(packages), packages)
    ensures var byLayer := ByLayer(DependencyGraph(packages), compare);
            forall p, q :: p in packages && q in packages && byLayer(p, q) <= 0 && byLayer(q, p) <= 0 ==> p == q
  {
    var g := DependencyGraph(packages);
    var byLayer := ByLayer(g, compare);
    forall p, q | p in packages && q in packages && byLayer(p, q) <= 0 && byLayer(q, p) <= 0 ensures p == q {
      ByLayerDecides(g, compare, p, q);
      ByLayerDecides(g, compare, q, p);
      assert !Tie(g, compare, p, q);
    }
  }

  /** The stable sort leaves tied packages as it finds them. */
  lemma TiesKeepInputOrder(packages: seq<Package>, compare: (Package, Package) -> int, i: nat, j: nat)
    requires UniqueShorts(packages) && AllLayered(DependencyGraph(packages), packages) && i < j < |packages|
    requires Tie(DependencyGraph(packages), compare, packages[i], packages[j])
    ensures Before(Result(packages, compare), packages[i], packages[j])
  {
    var g := DependencyGraph(packages);
    UniqueEntries(packages);
    assert packages[i] in packages && packages[j] in packages;
    ByLayerDecides(g, compare, packages[i], packages[j]);
    hide ByLayer;
    SortIsStable(packages, ByLayer(g, compare), i, j);
  }

  lemma SwapIsAPermutation(packages: seq<Package>, i: nat, j: nat)
    requires i < j < |packages|
    ensures multiset(Swap(packages, i, j)) == multiset(packages)
  {
  }

  lemma TieIsOrderDependent(packages: seq<Package>, compare: (Package, Package) -> int, i: nat, j: nat)
    requires UniqueShorts(packages) && AllLayered(DependencyGraph(packages), packages) && i < j < |packages|
    requires Tie(DependencyGraph(packages), compare, packages[i], packages[j])
    ensures Result(Swap(packages, i, j), compare) != Result(packages, compare)
  {
    var other := Swap(packages, i, j);
    var p, q := packages[i], packages[j];
    SwapIsAPermutation(packages, i, j);
    ArrangementKeepsUnique(packages, other);
    SameGraph(packages, other);
    SameElements(packages, other);
    TiesKeepInputOrder(packages, compare, i, j);
    TiesKeepInputOrder(other, compare, i, j);
    var result := Result(packages, compare);
    UniqueEntries(packages);
    SortKeepsElements(packages, ByLayer(DependencyGraph(packages), compare));
    SameElements(result, packages);
    PermutationKeepsDistinct(packages, result);
    assert p in packages && q in packages;
    DistinctAreOrdered(result, p, q);
  }

  /**
   The exact condition: the code returns one list for all input orders if and only if no two packages of a layer
   tie.
   */
  lemma SameForEveryOrderIff(packages: seq<Package>, compare: (Package, Package) -> int)
    requires UniqueShorts(packages) && Comparator(compare) && exists order :: DependencyOrder(packages, order)
    ensures SameForEveryOrder(packages, compare) <==> TieFree(packages, compare)
  {
    OrderableIffAllLayered(packages);
    hide Result, UniqueShorts, Comparator, AllLayered, DependencyGraph;
    if TieFree(packages, compare) {
      forall other | multiset(other) == multiset(packages) ensures Result(other, compare) == Result(packages, compare) {
        TieFreeIsCanonical(packages, compare, other);
      }
    } else {
      var i, j := TiedPositions(packages, compare);
      SwapIsAPermutation(packages, i, j);
      TieIsOrderDependent(packages, compare, i, j);
    }
  }

  lemma TiedPositions(packages: seq<Package>, compare: (Package, Package) -> int) returns (i: nat, j: nat)
    requires !TieFree(packages, compare)
    ensures i < j < |packages| && Tie(DependencyGraph(packages), compare, packages[i], packages[j])
  {
    hide LayerOrder, DependencyGraph;
    var p, q :| p in packages && q in packages && Tie(DependencyGraph(packages), compare, p, q);
    i :| i < |packages| && packages[i] == p;
    j :| j < |packages| && packages[j] == q;
    if j < i {
      i, j := j, i;
    }
  }

  /** When the collation tells the names apart, nothing ties, so the result does not depend on the input order. */
  lemma OrderIsCanonical(packages: seq<Package>, other: seq<Package>, groupOrder: seq<string>, collate: Collation)
    requires Consistent(collate) && UniqueShorts(packages) && multiset(packages) == multiset(other)
    requires forall p, q :: p in packages && q in packages && collate(p.short, q.short) == 0 ==> p.short == q.short
    requires exists order :: DependencyOrder(packages, order)
    ensures Result(other, PackageOrder(groupOrder, collate)) == Result(packages, PackageOrder(groupOrder, collate))
  {
    OrderableIffAllLayered(packages);
    ComparePackagesIsConsistent(groupOrder, collate);
    DistinctNamesDoNotTie(packages, groupOrder, collate, PackageOrder(groupOrder, collate));
    hide Result, PackageOrder, Consistent, Comparator, TieFree, AllLayered, DependencyGraph;
    TieFreeIsCanonical(packages, PackageOrder(groupOrder, collate), other);
  }

  lemma UniqueIsDistinct(packages: seq<Package>)
    requires UniqueShorts(packages)
    ensures Distinct(packages)
  {
  }

  lemma ByLayerCompares(g: Graph, compare: (Package, Package) -> int)
    requires Comparator(compare)
    ensures Comparator(ByLayer(g, compare))
  {
    var byLayer := ByLayer(g, compare);
    forall a, b, c | byLayer(a, b) <= 0 && byLayer(b, c) <= 0 ensures byLayer(a, c) <= 0 {
    }
    forall a, b ensures byLayer(a, b) <= 0 || byLayer(b, a) <= 0 {
    }
  }

  lemma SmallerComesFirst(packages: seq<Package>, compare: (Package, Package) -> int, a: Package, b: Package)
    requires UniqueShorts(packages) && Comparator(compare) && AllLayered(DependencyGraph(packages), packages)
    requires a in packages && b in packages && !LayerOrder(DependencyGraph(packages), compare, b, a)
    ensures Before(Result(packages, compare), a, b)
  {
    var g := DependencyGraph(packages);
    var byLayer := ByLayer(g, compare);
    var result := Result(packages, compare);
    UniqueEntries(packages);
    ByLayerCompares(g, compare);
    ByLayerDecides(g, compare, b, a);
    SortIsSorted(packages, byLayer);
    SortKeepsElements(packages, byLayer);
    SameElements(result, packages);
    UniqueIsDistinct(packages);
    PermutationKeepsDistinct(packages, result);
    assert byLayer(b, a) > 0;
    hide ByLayer, DependencyGraph, AllLayered, UniqueShorts;
    SortedNotBefore(result, byLayer, b, a);
    assert a != b by {
      assert byLayer(a, a) <= 0;
    }
    DistinctAreOrdered(result, a, b);
  }

  lemma SortedNotBefore(result: seq<Package>, compare: (Package, Package) -> int, b: Package, a: Package)
    requires SortedBy(result, (x, y) => compare(x, y) <= 0) && compare(b, a) > 0
    ensures !Before(result, b, a)
  {
  }

  /** Packages with shorter longest chains come first. */
  lemma LowerLayersStandFirst(
      packages: seq<Package>, compare: (Package, Package) -> int, a: Package, b: Package, i: nat, j: nat)
    requires UniqueShorts(packages) && Comparator(compare) && exists order :: DependencyOrder(packages, order)
    requires a in packages && b in packages && i < j
    requires InLayer(DependencyGraph(packages), a.short, i) && InLayer(DependencyGraph(packages), b.short, j)
    ensures Before(Result(packages, compare), a, b)
  {
    OrderableIffAllLayered(packages);
    var g := DependencyGraph(packages);
    if LayerOrder(g, compare, b, a) {
      var k: nat, l: nat :| InLayer(g, b.short, k) && InLayer(g, a.short, l) && k <= l;
      LayersAreUnique(g, a.short, i, l);
      LayersAreUnique(g, b.short, j, k);
    }
    SmallerComesFirst(packages, compare, a, b);
  }

  /** Of two packages in one layer, the one whose group comes first in the caller's order stands first in the result. */
  lemma GroupsStandInOrder(
      packages: seq<Package>, groupOrder: seq<string>, collate: Collation, a: Package, b: Package, k: nat)
    requires Consistent(collate) && |groupOrder| <= 9007199254740991
    requires UniqueShorts(packages) && exists order :: DependencyOrder(packages, order)
    requires a in packages && b in packages
    requires InLayer(DependencyGraph(packages), a.short, k) && InLayer(DependencyGraph(packages), b.short, k)
    requires GroupComesFirst(groupOrder, a.group, b.group)
    ensures Before(Result(packages, PackageOrder(groupOrder, collate)), a, b)
  {
    var g, compare := DependencyGraph(packages), PackageOrder(groupOrder, collate);
    OrderableIffAllLayered(packages);
    ComparePackagesIsConsistent(groupOrder, collate);
    GroupsDecideFirst(a, b, groupOrder, collate);
    assert compare(b, a) > 0;
    if LayerOrder(g, compare, b, a) {
      var i: nat, j: nat :| InLayer(g, b.short, i) && InLayer(g, a.short, j)
                            && (i < j || (i == j && compare(b, a) <= 0));
      LayersAreUnique(g, a.short, k, j);
      LayersAreUnique(g, b.short, k, i);
    }
    hide PackageOrder;
    SmallerComesFirst(packages, compare, a, b);
  }

  /** When the collation ties two names, the code returns the packages as they came. */
  lemma TiedNamesStayAsTheyCame(a: Package, b: Package, groupOrder: seq<string>, collate: Collation)
    requires Consistent(collate) && a.short != b.short && a.deps == [] && b.deps == []
    requires a.group == b.group && collate(a.short, b.short) == 0 && collate(a.group, b.group) == 0
    ensures Result([a, b], PackageOrder(groupOrder, collate)) == [a, b]
    ensures Result([b, a], PackageOrder(groupOrder, collate)) == [b, a]
  {
    ResultOfTwo(a, b, PackageOrder(groupOrder, collate));
    ResultOfTwo(b, a, PackageOrder(groupOrder, collate));
  }

  lemma ResultOfTwo(a: Package, b: Package, compare: (Package, Package) -> int)
    requires a.short != b.short && a.deps == [] && b.deps == [] && compare(a, b) <= 0
    ensures Result([a, b], compare) == [a, b]
  {
    var packages := [a, b];
    UniqueEntries(packages);
    var g := DependencyGraph(packages);
    assert a in packages && b in packages;
    GraphOf(packages, a);
    GraphOf(packages, b);
    assert InLayer(g, a.short, 1) && InLayer(g, b.short, 1);
    DepthIsLayer(g, a.short, 1);
    DepthIsLayer(g, b.short, 1);
    var byLayer := ByLayer(g, compare);
    assert packages[1..] == [b] && [b][1..] == [];
    assert Sort([b], byLayer) == Insert(b, [], byLayer) == [b];
    assert byLayer(a, b) <= 0;
  }

  lemma SameGraph(packages1: seq<Package>, packages2: seq<Package>)
    requires UniqueShorts(packages1) && UniqueShorts(packages2) && multiset(packages1) == multiset(packages2)
    ensures DependencyGraph(packages1) == DependencyGraph(packages2)
  {
    SameElements(packages1, packages2);
    var g1, g2 := DependencyGraph(packages1), DependencyGraph(packages2);
    assert Shorts(packages1) == Shorts(packages2);
    forall s | s in g1 ensures g1[s] == g2[s] {
      var p :| p in packages1 && p.short == s;
      GraphOf(packages1, p);
      GraphOf(packages2, p);
    }
  }

  lemma UnorderableIsStuck(g: Graph) returns (rest: set<string>)
    requires Unorderable(g)
    ensures Stuck(g, rest)
  {
    if !Acyclic(g) {
      var p :| ClosedWalk(g, p);
      rest := set x | x in p;
      assert p[0] in rest;
      forall x | x in rest ensures x in g && exists d :: d in g[x] && (d in rest || d !in g) {
        var i :| 0 <= i < |p| && p[i] == x;
        var j := if i < |p| - 1 then i else 0;
        assert Edge(g, p[j], p[j + 1]) && p[j + 1] in rest;
      }
    } else {
      var x, d :| Edge(g, x, d) && d !in g;
      rest := {x};
    }
  }

  ghost predicate PartialOrder(entries: seq<Package>, out: seq<Package>) {
    && UniqueShorts(out)
    && (forall p :: p in out ==> p in entries)
    && forall j, d :: 0 <= j < |out| && d in out[j].deps ==> d in Shorts(out[..j])
  }

  lemma ExtendOrder(entries: seq<Package>, out: seq<Package>, p: Package)
    requires PartialOrder(entries, out) && p in entries && p.short !in Shorts(out)
    requires forall d :: d in p.deps ==> d in Shorts(out)
    ensures PartialOrder(entries, out + [p])
  {
    var more := out + [p];
    forall i, j | 0 <= i < j < |more| ensures more[i].short != more[j].short {
      assert i < |out| && out[i] in out;
    }
    forall j, d | 0 <= j < |more| && d in more[j].deps ensures d in Shorts(more[..j]) {
      assert more[..j] == out[..j];
      assert out[..|out|] == out;
    }
  }

  lemma OccursUnlessAbsent(s: seq<Package>, p: Package)
    requires UniqueShorts(s)
    ensures multiset(s)[p] == if p in s then 1 else 0
  {
    OccursOnce(s, p);
    assert p in s <==> p in multiset(s);
  }

  lemma UniqueSubset(entries: seq<Package>, out: seq<Package>)
    requires UniqueShorts(entries) && UniqueShorts(out) && (forall p :: p in out ==> p in entries)
    ensures |out| <= |entries|
  {
    forall p ensures multiset(out)[p] <= multiset(entries)[p] {
      OccursUnlessAbsent(out, p);
      OccursUnlessAbsent(entries, p);
    }
    assert multiset(out) <= multiset(entries);
    assert |multiset(entries)| == |multiset(out)| + |multiset(entries) - multiset(out)|;
  }

  lemma UniqueCover(entries: seq<Package>, out: seq<Package>)
    requires UniqueShorts(entries) && UniqueShorts(out) && (forall p :: p in out ==> p in entries)
    requires Shorts(entries) <= Shorts(out)
    ensures multiset(out) == multiset(entries)
  {
    forall p ensures multiset(out)[p] == multiset(entries)[p] {
      OccursUnlessAbsent(out, p);
      OccursUnlessAbsent(entries, p);
      if p in entries {
        assert p.short in Shorts(entries);
        var q :| q in out && q.short == p.short;
      }
    }
  }

  lemma {:induction false} GreedyOrder(entries: seq<Package>, out: seq<Package>) returns (order: seq<Package>)
    requires UniqueShorts(entries) && PartialOrder(entries, out)
    requires forall rest :: !Stuck(DependencyGraph(entries), rest)
    ensures DependencyOrder(entries, order)
    decreases |entries| - |out|
  {
    var g := DependencyGraph(entries);
    var rest := Shorts(entries) - Shorts(out);
    UniqueSubset(entries, out);
    if rest == {} {
      order := out;
      forall x | x in Shorts(entries) ensures x in Shorts(out) {
        assert x !in rest;
      }
      UniqueCover(entries, out);
    } else {
      assert !Stuck(g, rest);
      var x :| x in rest && forall d :: d in g[x] ==> d !in rest && d in g;
      var p := entries[Position(entries, x)];
      assert p in entries;
      GraphOf(entries, p);
      ExtendOrder(entries, out, p);
      UniqueSubset(entries, out + [p]);
      order := GreedyOrder(entries, out + [p]);
    }
  }

  /** An order exists exactly when there is neither a cycle nor a dependency outside the packages. */
  lemma OrderableIff(entries: seq<Package>)
    requires UniqueShorts(entries)
    ensures (exists order :: DependencyOrder(entries, order)) <==> !Unorderable(DependencyGraph(entries))
  {
    var g := DependencyGraph(entries);
    if rest :| Stuck(g, rest) {
      StuckIsUnorderable(g, rest);
      StuckMeansNoOrder(entries, rest);
    } else {
      var order := GreedyOrder(entries, []);
      if Unorderable(g) {
        var rest := UnorderableIsStuck(g);
      }
    }
  }
}

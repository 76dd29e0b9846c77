/**
 Gate aggregates and their validation (docker/support/scripts/run-gates.ts).

 A gate names the gates that must pass before it (`needs`) and the gates that must
 merely settle before it (`after`); an absent list is the empty one.  Validation
 rejects every aggregate whose union of the two edge kinds cannot be executed.
 */
module GateGraph {
  import opened Wrappers
  import opened Digraph
  import opened Sequences

  datatype Gate = Gate(id: string, needs: seq<string>, after: seq<string>)

  datatype GraphError =
    | NoGates
    | DuplicateId(id: string)
    | UnknownNeed(gate: string, dependency: string)
    | UnknownAfter(gate: string, predecessor: string)
    | DependencyCycle(cycle: seq<string>)

  function Ids(gates: seq<Gate>): set<string> {
    set g | g in gates :: g.id
  }

  function LastNamed(gates: seq<Gate>, id: string): (g: Gate)
    requires id in Ids(gates)
    ensures g in gates && g.id == id
  {
    var last := gates[|gates| - 1];
    if last.id == id then last
    else
      assert gates == gates[..|gates| - 1] + [last];
      LastNamed(gates[..|gates| - 1], id)
  }

  /** The id table of an aggregate; when an id repeats, the last gate wins. */
  function ById(gates: seq<Gate>): map<string, Gate> {
    map id | id in Ids(gates) :: LastNamed(gates, id)
  }

  function Predecessors(table: map<string, Gate>): Graph {
    map id | id in table :: table[id].needs + table[id].after
  }

  ghost predicate UniqueIds(gates: seq<Gate>) {
    forall i, j :: 0 <= i < j < |gates| ==> gates[i].id != gates[j].id
  }

  /** The gate names `d` as a predecessor, of either kind. */
  predicate WaitsFor(g: Gate, d: string) {
    d in g.needs || d in g.after
  }

  ghost predicate KnownIds(gates: seq<Gate>) {
    forall g, d {:trigger WaitsFor(g, d)} :: g in gates && WaitsFor(g, d) ==> d in Ids(gates)
  }

  /** What the scheduler relies on. */
  ghost predicate Executable(gates: seq<Gate>) {
    gates != [] && UniqueIds(gates) && KnownIds(gates) && Acyclic(Predecessors(ById(gates)))
  }

  lemma SameId(gates: seq<Gate>, g: Gate, h: Gate)
    requires UniqueIds(gates) && g in gates && h in gates && g.id == h.id
    ensures g == h
  {
    var i :| 0 <= i < |gates| && gates[i] == g;
    var j :| 0 <= j < |gates| && gates[j] == h;
  }

  /** The edges searched are the `needs` and `after` entries of the gates, both and no others. */
  lemma EdgesAreThePredecessors(gates: seq<Gate>, a: string, b: string)
    requires UniqueIds(gates)
    ensures Edge(Predecessors(ById(gates)), a, b) <==>
        exists g :: g in gates && g.id == a && (b in g.needs || b in g.after)
  {
    if g :| g in gates && g.id == a && (b in g.needs || b in g.after) {
      assert a in Ids(gates);
      SameId(gates, g, LastNamed(gates, a));
    }
  }

  /** No gate is named as a predecessor, of either kind, that is not in the list. */
  lemma PredecessorsAreListed(gates: seq<Gate>)
    ensures KnownIds(gates) <==>
              forall g, d :: g in gates && (d in g.needs || d in g.after) ==> exists h :: h in gates && h.id == d
  {
    forall g, d | g in gates ensures WaitsFor(g, d) <==> d in g.needs || d in g.after {
    }
    forall d ensures d in Ids(gates) <==> exists h :: h in gates && h.id == d {
    }
  }

  /** In an executable aggregate every non-empty set of ids has a gate that waits for none of them. */
  lemma UnobstructedGate(gates: seq<Gate>, ids: set<string>) returns (g: Gate)
    requires Executable(gates) && ids != {} && ids <= Ids(gates)
    ensures g in gates && g.id in ids
    ensures forall d {:trigger WaitsFor(g, d)} :: WaitsFor(g, d) ==> d in Ids(gates) && d !in ids
  {
    var graph := Predecessors(ById(gates));
    var n := AcyclicHasSink(graph, ids);
    g := LastNamed(gates, n);
    forall d | WaitsFor(g, d) ensures d in Ids(gates) && d !in ids {
      assert Edge(graph, n, d);
    }
  }

  ghost predicate Positions(active: map<string, nat>, path: seq<string>) {
    && (forall i :: 0 <= i < |path| ==> path[i] in active && active[path[i]] == i)
    && (forall id :: id in active ==> active[id] < |path| && path[active[id]] == id)
  }

  /** A closed walk that comes back to no gate before its first one. */
  ghost predicate Cycle(g: Graph, p: seq<string>) {
    ClosedWalk(g, p) && Distinct(p[..|p| - 1])
  }

  lemma ClosingWalk(g: Graph, path: seq<string>, start: nat, id: string)
    requires Walk(g, path) && start < |path| && path[start] == id && Edge(g, path[|path| - 1], id) && Distinct(path)
    ensures Cycle(g, path[start..] + [id])
  {
    var closed := path[start..] + [id];
    assert closed[..|closed| - 1] == path[start..];
    forall i | 0 <= i < |closed| - 1 ensures Edge(g, closed[i], closed[i + 1]) {
      assert closed[i] == path[start + i];
      if i < |closed| - 2 {
        assert closed[i + 1] == path[start + i + 1];
      }
    }
  }

  /** The depth-first search for a dependency cycle, with its three shared tables. */
  class CycleFinder {
    const byId: map<string, Gate>
    var complete: set<string>
    var active: map<string, nat>
    var path: seq<string>
    ghost var order: seq<string>  // completed ids, in completion order

    ghost function Graph(): Graph {
      Predecessors(byId)
    }

    ghost predicate Valid()
      reads this
    {
      && Positions(active, path)
      && Walk(Graph(), path)
      && (forall id :: id in path ==> id in byId)
      && FinishingOrder(Graph(), order)
      && (forall id :: id in complete <==> id in order)
    }

    constructor (byId: map<string, Gate>)
      ensures Valid() && this.byId == byId && path == []
    {
      this.byId := byId;
      complete, active, path, order := {}, map[], [], [];
    }

    method Enter(id: string)
      requires Valid() && id in byId && id !in active
      requires path != [] ==> Edge(Graph(), path[|path| - 1], id)
      modifies this`active, this`path
      ensures Valid() && path == old(path) + [id] && active == old(active)[id := |old(path)|]
    {
      active := active[id := |path|];
      path := path + [id];
    }

    method Leave(id: string)
      requires Valid() && path != [] && path[|path| - 1] == id
      requires forall d :: Edge(Graph(), id, d) && d in byId ==> d in complete
      modifies this
      ensures Valid() && path == old(path)[..|old(path)| - 1] && active == old(active) - {id}
      ensures complete == old(complete) + {id}
    {
      path := path[..|path| - 1];
      active := active - {id};
      complete := complete + {id};
      FinishingOrderExtends(Graph(), order, id);
      order := order + [id];
    }

    method Visit(id: string) returns (cycle: Option<seq<string>>)
      requires Valid()
      requires path != [] ==> Edge(Graph(), path[|path| - 1], id)
      modifies this
      ensures cycle.None? ==> Valid() && path == old(path) && active == old(active)
      ensures cycle.None? ==> old(complete) <= complete && (id in byId ==> id in complete)
      ensures cycle.Some? ==> Cycle(Graph(), cycle.value)
      decreases byId.Keys - active.Keys
    {
      if id in complete {
        return None;
      }
      if id in active {
        assert Distinct(path);
        ClosingWalk(Graph(), path, active[id], id);
        return Some(path[active[id]..] + [id]);
      }
      if id !in byId {
        return None;
      }
      var predecessors := byId[id].needs + byId[id].after;
      Enter(id);
      ghost var entered := path;
      assert id in byId.Keys - old(active).Keys && byId.Keys - active.Keys < byId.Keys - old(active).Keys;
      for i := 0 to |predecessors|
        invariant Valid() && path == entered && active == old(active)[id := |old(path)|]
        invariant old(complete) <= complete
        invariant forall d :: d in predecessors[..i] && d in byId ==> d in complete
      {
        assert predecessors[..i + 1] == predecessors[..i] + [predecessors[i]];
        cycle := Visit(predecessors[i]);
        if cycle.Some? {
          return;
        }
      }
      assert predecessors[..|predecessors|] == predecessors;
      Leave(id);
      cycle := None;
    }
  }

  /** A returned list is a real cycle, gone round once; nothing is returned exactly on acyclic aggregates. */
  method FindDependencyCycle(gates: seq<Gate>) returns (cycle: Option<seq<string>>)
    ensures cycle.Some? ==> Cycle(Predecessors(ById(gates)), cycle.value)
    ensures cycle.None? <==> Acyclic(Predecessors(ById(gates)))
  {
    var finder := new CycleFinder(ById(gates));
    for i := 0 to |gates|
      invariant finder.Valid() && finder.path == [] && finder.byId == ById(gates)
      invariant forall j :: 0 <= j < i ==> gates[j].id in finder.complete
      invariant fresh(finder)
    {
      assert gates[i] in gates;
      cycle := finder.Visit(gates[i].id);
      if cycle.Some? {
        return;
      }
    }
    FinishingOrderIsAcyclic(Predecessors(ById(gates)), finder.order);
    cycle := None;
  }

  ghost predicate FirstUnknown(refs: seq<string>, d: string, ids: set<string>) {
    d !in ids && exists k :: 0 <= k < |refs| && refs[k] == d && forall e :: e in refs[..k] ==> e in ids
  }

  /** Which of an aggregate's faults an error reports. */
  ghost predicate Describes(gates: seq<Gate>, e: GraphError) {
    match e
    case NoGates => gates == []
    case DuplicateId(id) =>
      exists i, j :: 0 <= i < j < |gates| && gates[i].id == gates[j].id == id && UniqueIds(gates[..j])
    case UnknownNeed(g, d) =>
      && UniqueIds(gates)
      && exists i :: 0 <= i < |gates| && gates[i].id == g && FirstUnknown(gates[i].needs, d, Ids(gates))
                     && forall j, r :: 0 <= j < i && WaitsFor(gates[j], r) ==> r in Ids(gates)
    case UnknownAfter(g, p) =>
      && UniqueIds(gates)
      && exists i :: 0 <= i < |gates| && gates[i].id == g && FirstUnknown(gates[i].after, p, Ids(gates))
                     && (forall r :: r in gates[i].needs ==> r in Ids(gates))
                     && forall j, r :: 0 <= j < i && WaitsFor(gates[j], r) ==> r in Ids(gates)
    case DependencyCycle(c) =>
      UniqueIds(gates) && KnownIds(gates) && Cycle(Predecessors(ById(gates)), c)
  }

  /** Validation accepts exactly the executable aggregates and reports the first fault of the others. */
  method ValidateGateGraph(gates: seq<Gate>) returns (r: Result<(), GraphError>)
    ensures r.Success? <==> Executable(gates)
    ensures r.Failure? ==> Describes(gates, r.error)
  {
    if |gates| == 0 {
      return Failure(NoGates);
    }
    var ids: set<string> := {};
    for i := 0 to |gates|
      invariant UniqueIds(gates[..i])
      invariant ids == Ids(gates[..i])
    {
      if gates[i].id in ids {
        var g :| g in gates[..i] && g.id == gates[i].id;
        var j :| 0 <= j < i && gates[j] == g;
        assert !UniqueIds(gates);
        return Failure(DuplicateId(gates[i].id));
      }
      ids := ids + {gates[i].id};
      assert gates[..i + 1] == gates[..i] + [gates[i]];
      forall a, b | 0 <= a < b < i + 1 ensures gates[a].id != gates[b].id {
        if b == i {
          assert gates[a] in gates[..i];
        } else {
          assert gates[..i][a].id != gates[..i][b].id;
        }
      }
    }
    assert gates[..|gates|] == gates;
    for i := 0 to |gates|
      invariant forall j, d :: 0 <= j < i && WaitsFor(gates[j], d) ==> d in ids
    {
      for k := 0 to |gates[i].needs|
        invariant forall d :: d in gates[i].needs[..k] ==> d in ids
      {
        if gates[i].needs[k] !in ids {
          assert gates[i] in gates && WaitsFor(gates[i], gates[i].needs[k]);
          return Failure(UnknownNeed(gates[i].id, gates[i].needs[k]));
        }
      }
      for k := 0 to |gates[i].after|
        invariant forall d :: d in gates[i].after[..k] ==> d in ids
      {
        if gates[i].after[k] !in ids {
          assert gates[i] in gates && WaitsFor(gates[i], gates[i].after[k]);
          return Failure(UnknownAfter(gates[i].id, gates[i].after[k]));
        }
      }
    }
    assert KnownIds(gates);
    var cycle := FindDependencyCycle(gates);
    if cycle.Some? {
      return Failure(DependencyCycle(cycle.value));
    }
    return Success(());
  }
}

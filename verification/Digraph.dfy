/**
 Finite directed graphs given as successor lists, and the one fact about them that
 every dependency theorem below rests on: a non-empty set of nodes in which each
 node has a successor inside the set contains a closed walk.
 */
module Digraph {
  import opened Sequences

  type Graph = map<string, seq<string>>

  predicate Edge(g: Graph, a: string, b: string) {
    a in g && b in g[a]
  }

  predicate Walk(g: Graph, p: seq<string>) {
    forall i :: 0 <= i < |p| - 1 ==> Edge(g, p[i], p[i + 1])
  }

  predicate ClosedWalk(g: Graph, p: seq<string>) {
    |p| >= 2 && p[0] == p[|p| - 1] && Walk(g, p)
  }

  ghost predicate Acyclic(g: Graph) {
    forall p :: !ClosedWalk(g, p)
  }

  ghost predicate HasSuccessorWithin(g: Graph, s: set<string>, n: string) {
    exists m :: m in s && Edge(g, n, m)
  }

  lemma {:induction false} LongWalk(g: Graph, s: set<string>, n: nat) returns (p: seq<string>)
    requires s != {} && forall a :: a in s ==> HasSuccessorWithin(g, s, a)
    ensures |p| == n + 1 && Walk(g, p) && forall x :: x in p ==> x in s
  {
    if n == 0 {
      var a :| a in s;
      p := [a];
    } else {
      var q := LongWalk(g, s, n - 1);
      assert q[|q| - 1] in s;
      var m :| m in s && Edge(g, q[|q| - 1], m);
      p := q + [m];
    }
  }

  /** A set of nodes that all have a successor inside the set contains a closed walk. */
  lemma StuckSetHasClosedWalk(g: Graph, s: set<string>) returns (p: seq<string>)
    requires s != {} && forall a :: a in s ==> HasSuccessorWithin(g, s, a)
    ensures ClosedWalk(g, p) && forall x :: x in p ==> x in s
  {
    var q := LongWalk(g, s, |s|);
    if Distinct(q) {
      DistinctFits(q, s);
      assert false;
    }
    var i, j :| 0 <= i < j < |q| && q[i] == q[j];
    p := q[i..j + 1];
    forall k | 0 <= k < |p| - 1 ensures Edge(g, p[k], p[k + 1]) {
      assert p[k] == q[i + k] && p[k + 1] == q[i + k + 1];
    }
  }

  /** In an acyclic graph every non-empty set of nodes has a member with no successor inside it. */
  lemma AcyclicHasSink(g: Graph, s: set<string>) returns (n: string)
    requires Acyclic(g) && s != {}
    ensures n in s && !HasSuccessorWithin(g, s, n)
  {
    if forall a :: a in s ==> HasSuccessorWithin(g, s, a) {
      var p := StuckSetHasClosedWalk(g, s);
      assert false;
    }
    n :| n in s && !HasSuccessorWithin(g, s, n);
  }

  /** A finishing order: every edge leads to a node listed earlier, or out of the graph. */
  ghost predicate FinishingOrder(g: Graph, order: seq<string>) {
    forall i, b :: 0 <= i < |order| && Edge(g, order[i], b) && b in g ==> b in order[..i]
  }

  lemma FinishingOrderExtends(g: Graph, order: seq<string>, n: string)
    requires FinishingOrder(g, order)
    requires forall b :: Edge(g, n, b) && b in g ==> b in order
    ensures FinishingOrder(g, order + [n])
  {
    var longer := order + [n];
    forall i, b | 0 <= i < |longer| && Edge(g, longer[i], b) && b in g ensures b in longer[..i] {
      if i < |order| {
        assert longer[..i] == order[..i];
      } else {
        assert longer[..i] == order;
      }
    }
  }

  ghost function FirstIndex(order: seq<string>, x: string): (i: nat)
    requires x in order
    ensures i < |order| && order[i] == x
    ensures forall j :: 0 <= j < i ==> order[j] != x
  {
    if order[0] == x then 0 else 1 + FirstIndex(order[1..], x)
  }

  lemma {:induction false} WalkDescends(g: Graph, order: seq<string>, p: seq<string>, k: nat)
    requires FinishingOrder(g, order) && Walk(g, p) && 1 <= k < |p|
    requires forall x :: x in p ==> x in g && x in order
    ensures FirstIndex(order, p[k]) < FirstIndex(order, p[0])
  {
    if k > 1 {
      WalkDescends(g, order, p, k - 1);
    }
    var i := FirstIndex(order, p[k - 1]);
    assert Edge(g, p[k - 1], p[k - 1 + 1]);
    assert order[i] == p[k - 1] && p[k] in p;
    assert p[k] in order[..i];
  }

  /** A finishing order that lists every node leaves no room for a closed walk. */
  lemma FinishingOrderIsAcyclic(g: Graph, order: seq<string>)
    requires FinishingOrder(g, order) && forall x :: x in g ==> x in order
    ensures Acyclic(g)
  {
    forall p ensures !ClosedWalk(g, p) {
      if ClosedWalk(g, p) {
        forall x | x in p ensures x in g {
          var i :| 0 <= i < |p| && p[i] == x;
          if i < |p| - 1 {
            assert Edge(g, p[i], p[i + 1]);
          } else {
            assert Edge(g, p[0], p[0 + 1]);
          }
        }
        WalkDescends(g, order, p, |p| - 1);
      }
    }
  }
}

/** Cycle detection over default and computed dependencies (liasse-model, check.rs). */
module Cycles {
  import opened Values

  /** Each declared field with the names its expressions read. */
  type Graph = map<string, seq<string>>

  /** `a` depends on the declared field `b`. */
  ghost predicate Edge(g: Graph, a: string, b: string) {
    a in g && b in g && b in g[a]
  }

  ghost predicate IsPath(g: Graph, p: seq<string>) {
    |p| >= 2 && forall i :: 0 <= i < |p| - 1 ==> Edge(g, p[i], p[i + 1])
  }

  ghost predicate Reaches(g: Graph, a: string, b: string) {
    exists p :: IsPath(g, p) && p[0] == a && p[|p| - 1] == b
  }

  ghost predicate OnCycle(g: Graph, a: string) { Reaches(g, a, a) }

  ghost predicate Acyclic(g: Graph) { forall a :: !OnCycle(g, a) }

  lemma ReachesEdge(g: Graph, a: string, b: string)
    requires Edge(g, a, b)
    ensures Reaches(g, a, b)
  {
    assert IsPath(g, [a, b]);
  }

  lemma ReachesThenEdge(g: Graph, a: string, b: string, c: string)
    requires Reaches(g, a, b) && Edge(g, b, c)
    ensures Reaches(g, a, c)
  {
    var p :| IsPath(g, p) && p[0] == a && p[|p| - 1] == b;
    assert IsPath(g, p + [c]) && (p + [c])[0] == a && (p + [c])[|p|] == c;
  }

  /** Fields in an order in which each depends on earlier ones only. */
  ghost predicate Topological(g: Graph, order: seq<string>) {
    forall i, b :: 0 <= i < |order| && Edge(g, order[i], b) ==> b in order[..i]
  }

  lemma TopologicalAppend(g: Graph, order: seq<string>, a: string)
    requires Topological(g, order) && forall b :: Edge(g, a, b) ==> b in order
    ensures Topological(g, order + [a])
  {
    forall i, b | 0 <= i < |order| + 1 && Edge(g, (order + [a])[i], b)
      ensures b in (order + [a])[..i]
    {
      assert (order + [a])[..i] == order[..i];
      if i == |order| { assert order[..i] == order; }
    }
  }

  lemma {:induction false} PathDescends(g: Graph, order: seq<string>, p: seq<string>, i: nat) returns (j: nat)
    requires Topological(g, order) && IsPath(g, p) && i < |order| && order[i] == p[0]
    ensures j < i && order[j] == p[|p| - 1]
    decreases |p|
  {
    assert Edge(g, p[0], p[1]);
    assert p[1] in order[..i];
    j :| 0 <= j < i && order[j] == p[1];
    if |p| > 2 {
      var q := p[1..];
      assert IsPath(g, q) by {
        forall k | 0 <= k < |q| - 1
          ensures Edge(g, q[k], q[k + 1])
        {
          assert q[k] == p[k + 1] && q[k + 1] == p[k + 2];
        }
      }
      j := PathDescends(g, order, q, j);
    }
  }

  lemma {:induction false} NoReturn(g: Graph, order: seq<string>, a: string, i: nat)
    requires Topological(g, order) && i < |order| && order[i] == a
    ensures !OnCycle(g, a)
    decreases i
  {
    if OnCycle(g, a) {
      var p :| IsPath(g, p) && p[0] == a && p[|p| - 1] == a;
      var j := PathDescends(g, order, p, i);
      NoReturn(g, order, a, j);
    }
  }

  /** A topological order of every field means no field is on a cycle. */
  lemma TopologicalMeansAcyclic(g: Graph, order: seq<string>)
    requires Topological(g, order) && forall a :: a in g ==> a in order
    ensures Acyclic(g)
  {
    forall a
      ensures !OnCycle(g, a)
    {
      if OnCycle(g, a) {
        var p :| IsPath(g, p) && p[0] == a && p[|p| - 1] == a;
        assert Edge(g, p[0], p[1]);
        var i :| 0 <= i < |order| && order[i] == a;
        NoReturn(g, order, a, i);
      }
    }
  }

  datatype Visit = Active | Done

  /** The depth-first search: the state map, and the fields in the order they finished. */
  class Search {
    const graph: Graph
    var state: map<string, Visit>
    ghost var finished: seq<string>

    ghost predicate Valid()
      reads this
    {
      && state.Keys <= graph.Keys
      && (forall a :: a in finished <==> a in state && state[a] == Done)
      && Topological(graph, finished)
    }

    ghost function ActiveFields(): set<string>
      reads this
    {
      set a | a in state && state[a] == Active
    }

    constructor (graph: Graph)
      ensures this.graph == graph && Valid() && state == map[] && finished == []
    {
      this.graph := graph;
      state, finished := map[], [];
    }

    /** Visit one declared field that every active field reaches. */
    method VisitField(node: string) returns (found: Option<string>)
      requires Valid() && node in graph
      requires forall a :: a in ActiveFields() ==> Reaches(graph, a, node)
      modifies this
      ensures found.Some? ==> OnCycle(graph, found.value)
      ensures found.None? ==> Valid() && node in finished && ActiveFields() == old(ActiveFields())
      ensures found.None? ==> old(finished) <= finished && old(state).Keys <= state.Keys
      decreases graph.Keys - state.Keys
    {
      if node in state {
        if state[node] == Done {
          return None;
        }
        return Some(node);
      }
      ghost var active := ActiveFields();
      state := state[node := Active];
      assert ActiveFields() == active + {node};
      var deps := graph[node];
      for i := 0 to |deps|
        invariant Valid() && ActiveFields() == active + {node}
        invariant old(finished) <= finished && old(state).Keys + {node} <= state.Keys
        invariant forall j :: 0 <= j < i && deps[j] in graph ==> deps[j] in finished
      {
        var dep := deps[i];
        if dep in graph {
          assert Edge(graph, node, dep);
          forall a | a in ActiveFields()
            ensures Reaches(graph, a, dep)
          {
            if a == node { ReachesEdge(graph, node, dep); } else { ReachesThenEdge(graph, a, node, dep); }
          }
          found := VisitField(dep);
          if found.Some? {
            return;
          }
        }
      }
      assert node !in finished && node in ActiveFields();
      state := state[node := Done];
      TopologicalAppend(graph, finished, node);
      finished := finished + [node];
      found := None;
    }
  }

  /** Some field on a cycle, or none exactly when the declared fields have no cycle and so
      can be evaluated in a topological order. */
  method FindCycle(graph: Graph, fields: seq<string>) returns (found: Option<string>, ghost order: seq<string>)
    requires forall a :: a in fields <==> a in graph
    ensures found.Some? ==> OnCycle(graph, found.value)
    ensures found.None? <==> Acyclic(graph)
    ensures found.None? ==> Topological(graph, order) && forall a :: a in graph ==> a in order
  {
    order := [];
    var search := new Search(graph);
    assert search.ActiveFields() == {};
    for i := 0 to |fields|
      invariant search.Valid() && search.graph == graph && search.ActiveFields() == {}
      invariant forall j :: 0 <= j < i ==> fields[j] in search.finished
    {
      found := search.VisitField(fields[i]);
      if found.Some? {
        return;
      }
    }
    order := search.finished;
    TopologicalMeansAcyclic(graph, order);
    found := None;
  }
}

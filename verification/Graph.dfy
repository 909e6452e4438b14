/** Finite dependency graphs: an id is mapped to the ids it depends on.
    Shared by the verifier mesh and the task frontier. */
module Graph {
  import opened Text

  type DependencyGraph = map<string, seq<string>>

  ghost predicate Closed(g: DependencyGraph) {
    forall id, d | id in g && d in g[id] :: d in g
  }

  /** Each element of the path is followed by one of its dependencies. */
  ghost predicate IsPath(g: DependencyGraph, p: seq<string>) {
    && p != []
    && (forall i | 0 <= i < |p| :: p[i] in g)
    && (forall i, j | 0 <= i < j < |p| && j == i + 1 :: p[j] in g[p[i]])
  }

  ghost predicate IsCycle(g: DependencyGraph, p: seq<string>) {
    IsPath(g, p) && |p| >= 2 && p[0] == p[|p| - 1]
  }

  ghost predicate Acyclic(g: DependencyGraph) {
    forall p :: !IsCycle(g, p)
  }

  /** Dependencies come before their dependents, and nothing is repeated. */
  ghost predicate Topological(g: DependencyGraph, order: seq<string>) {
    && (forall i | 0 <= i < |order| :: order[i] in g)
    && (forall i, d | 0 <= i < |order| && d in g[order[i]] :: d in order[..i])
    && (forall i, j | 0 <= i < j < |order| :: order[i] != order[j])
  }

  ghost predicate Covers(g: DependencyGraph, order: seq<string>) {
    forall id | id in g :: id in order
  }

  ghost function Position(order: seq<string>, id: string): (k: nat)
    requires id in order
    ensures k < |order| && order[k] == id
  {
    var k: nat :| k < |order| && order[k] == id; k
  }

  lemma {:induction false} PathDescends(g: DependencyGraph, order: seq<string>, p: seq<string>, i: nat)
    requires Topological(g, order) && Covers(g, order)
    requires IsPath(g, p) && i < |p|
    ensures Position(order, p[i]) + i <= Position(order, p[0])
  {
    if i > 0 {
      PathDescends(g, order, p, i - 1);
      var k := Position(order, p[i - 1]);
      assert p[i] in g[order[k]];
      assert p[i] in order[..k];
    }
  }

  /** A graph that can be put in dependency order has no cycle. */
  lemma TopologicalMeansAcyclic(g: DependencyGraph, order: seq<string>)
    requires Topological(g, order) && Covers(g, order)
    ensures Acyclic(g)
  {
    forall p ensures !IsCycle(g, p) {
      if IsCycle(g, p) {
        PathDescends(g, order, p, |p| - 1);
      }
    }
  }

  // ---- Depth-first search ----

  datatype Search = Done(visited: set<string>, order: seq<string>) | CycleAt(id: string)

  function Visit(g: DependencyGraph, id: string, inStack: set<string>,
                 visited: set<string>, order: seq<string>): (r: Search)
    requires Closed(g) && id in g
    ensures r.Done? ==> visited <= r.visited
    decreases g.Keys - visited - inStack, 0
  {
    if id in visited then Done(visited, order)
    else if id in inStack then CycleAt(id)
    else
      match VisitAll(g, Sort(g[id]), inStack + {id}, visited, order)
      case Done(v, o) => Done(v + {id}, o + [id])
      case CycleAt(at) => CycleAt(at)
  }

  function VisitAll(g: DependencyGraph, ids: seq<string>, inStack: set<string>,
                    visited: set<string>, order: seq<string>): (r: Search)
    requires Closed(g) && forall id | id in ids :: id in g
    ensures r.Done? ==> visited <= r.visited
    decreases g.Keys - visited - inStack, 1 + |ids|
  {
    if ids == [] then Done(visited, order)
    else
      match Visit(g, ids[0], inStack, visited, order)
      case Done(v, o) => VisitAll(g, ids[1..], inStack, v, o)
      case CycleAt(at) => CycleAt(at)
  }

  /** What has been visited is exactly what has been listed, in dependency order. */
  ghost predicate Consistent(g: DependencyGraph, visited: set<string>, order: seq<string>) {
    Topological(g, order) && forall id :: id in visited <==> id in order
  }

  lemma TopologicalAppend(g: DependencyGraph, order: seq<string>, id: string)
    requires Topological(g, order) && id in g && id !in order
    requires forall d | d in g[id] :: d in order
    ensures Topological(g, order + [id])
  {
    var o := order + [id];
    forall i, d | 0 <= i < |o| && d in g[o[i]] ensures d in o[..i] {
      if i < |order| {
        assert o[..i] == order[..i];
        assert d in g[order[i]];
      } else {
        assert o[..i] == order;
      }
    }
  }

  lemma {:induction false} VisitKeepsOrder(g: DependencyGraph, id: string, inStack: set<string>,
                                           visited: set<string>, order: seq<string>)
    requires Closed(g) && id in g
    requires Consistent(g, visited, order) && visited !! inStack
    ensures var r := Visit(g, id, inStack, visited, order);
            r.Done? ==> Consistent(g, r.visited, r.order) && r.visited !! inStack &&
                        order <= r.order && id in r.visited
    decreases g.Keys - visited - inStack, 0
  {
    if id !in visited && id !in inStack {
      VisitAllKeepsOrder(g, Sort(g[id]), inStack + {id}, visited, order);
      var r := VisitAll(g, Sort(g[id]), inStack + {id}, visited, order);
      if r.Done? {
        assert id in inStack + {id} && id !in r.visited;
        TopologicalAppend(g, r.order, id);
      }
    }
  }

  lemma {:induction false} VisitAllKeepsOrder(g: DependencyGraph, ids: seq<string>, inStack: set<string>,
                                              visited: set<string>, order: seq<string>)
    requires Closed(g) && forall id | id in ids :: id in g
    requires Consistent(g, visited, order) && visited !! inStack
    ensures var r := VisitAll(g, ids, inStack, visited, order);
            r.Done? ==> Consistent(g, r.visited, r.order) && r.visited !! inStack &&
                        order <= r.order && forall id | id in ids :: id in r.visited
    decreases g.Keys - visited - inStack, 1 + |ids|
  {
    if ids != [] {
      VisitKeepsOrder(g, ids[0], inStack, visited, order);
      var r := Visit(g, ids[0], inStack, visited, order);
      if r.Done? {
        VisitAllKeepsOrder(g, ids[1..], inStack, r.visited, r.order);
      }
    }
  }

  /** The ids on the search stack form a path whose last element depends on `id`. */
  ghost predicate StackLeadsTo(g: DependencyGraph, stack: seq<string>, inStack: set<string>, id: string) {
    && (forall x :: x in inStack <==> x in stack)
    && (stack != [] ==> IsPath(g, stack) && id in g[stack[|stack| - 1]])
  }

  /** A reported cycle is a cycle of the graph, through the reported id. */
  lemma {:induction false} VisitFindsCycle(g: DependencyGraph, id: string, stack: seq<string>, inStack: set<string>,
                                           visited: set<string>, order: seq<string>) returns (c: seq<string>)
    requires Closed(g) && id in g
    requires StackLeadsTo(g, stack, inStack, id)
    requires Visit(g, id, inStack, visited, order).CycleAt?
    ensures IsCycle(g, c) && c[0] == Visit(g, id, inStack, visited, order).id
    decreases g.Keys - visited - inStack, 0
  {
    if id in inStack {
      var k := Position(stack, id);
      c := stack[k..] + [id];
    } else {
      var deps := Sort(g[id]);
      c := VisitAllFindsCycle(g, deps, stack + [id], inStack + {id}, visited, order);
    }
  }

  lemma {:induction false} VisitAllFindsCycle(g: DependencyGraph, ids: seq<string>, stack: seq<string>,
                                              inStack: set<string>,
                                              visited: set<string>, order: seq<string>) returns (c: seq<string>)
    requires Closed(g) && forall id | id in ids :: id in g
    requires forall id | id in ids :: StackLeadsTo(g, stack, inStack, id)
    requires VisitAll(g, ids, inStack, visited, order).CycleAt?
    ensures IsCycle(g, c) && c[0] == VisitAll(g, ids, inStack, visited, order).id
    decreases g.Keys - visited - inStack, 1 + |ids|
  {
    var r := Visit(g, ids[0], inStack, visited, order);
    if r.CycleAt? {
      c := VisitFindsCycle(g, ids[0], stack, inStack, visited, order);
    } else {
      c := VisitAllFindsCycle(g, ids[1..], stack, inStack, r.visited, r.order);
    }
  }

  /** The two graphs have the same ids and, id by id, the same dependencies
      written down in some order. */
  ghost predicate SameUpToOrder(g: DependencyGraph, h: DependencyGraph) {
    g.Keys == h.Keys && forall id | id in g :: multiset(g[id]) == multiset(h[id])
  }

  lemma {:induction false} VisitIgnoresOrder(g: DependencyGraph, h: DependencyGraph, id: string, inStack: set<string>,
                                             visited: set<string>, order: seq<string>)
    requires Closed(g) && Closed(h) && SameUpToOrder(g, h) && id in g
    ensures Visit(g, id, inStack, visited, order) == Visit(h, id, inStack, visited, order)
    decreases g.Keys - visited - inStack, 0
  {
    if id !in visited && id !in inStack {
      SortIgnoresOrder(g[id], h[id]);
      VisitAllIgnoresOrder(g, h, Sort(g[id]), inStack + {id}, visited, order);
    }
  }

  lemma {:induction false} VisitAllIgnoresOrder(g: DependencyGraph, h: DependencyGraph, ids: seq<string>,
                                                inStack: set<string>,
                                                visited: set<string>, order: seq<string>)
    requires Closed(g) && Closed(h) && SameUpToOrder(g, h) && forall id | id in ids :: id in g
    ensures VisitAll(g, ids, inStack, visited, order) == VisitAll(h, ids, inStack, visited, order)
    decreases g.Keys - visited - inStack, 1 + |ids|
  {
    if ids != [] {
      VisitIgnoresOrder(g, h, ids[0], inStack, visited, order);
      var r := Visit(g, ids[0], inStack, visited, order);
      if r.Done? {
        VisitAllIgnoresOrder(g, h, ids[1..], inStack, r.visited, r.order);
      }
    }
  }

  // ---- The whole graph ----

  /** Depth-first search over every id succeeds exactly on acyclic graphs. */
  lemma SearchDecides(g: DependencyGraph, ids: seq<string>)
    requires Closed(g) && forall id :: id in ids <==> id in g
    ensures var r := VisitAll(g, ids, {}, {}, []);
            && (r.Done? <==> Acyclic(g))
            && (r.Done? ==> Topological(g, r.order) && Covers(g, r.order))
            && (r.CycleAt? ==> exists c :: IsCycle(g, c) && c[0] == r.id)
  {
    VisitAllKeepsOrder(g, ids, {}, {}, []);
    var r := VisitAll(g, ids, {}, {}, []);
    if r.Done? {
      TopologicalMeansAcyclic(g, r.order);
    } else {
      var c := VisitAllFindsCycle(g, ids, [], {}, {}, []);
    }
  }
}

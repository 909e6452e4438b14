/** The topological sort of packages/verification/src/graph.ts. */
module VerifierGraph {
  import opened Outcomes
  import opened Text
  import opened Graph

  datatype Verifier = Verifier(verifierId: string, verifierVersion: string, dependsOn: seq<string>)

  datatype MeshError =
    | DuplicateVerifierId(id: string)
    | MissingDependency(id: string, dependency: string)
    | DependencyCycle(id: string)

  function Ids(verifiers: seq<Verifier>): (ids: seq<string>)
    ensures |ids| == |verifiers|
    ensures forall i | 0 <= i < |ids| :: ids[i] == verifiers[i].verifierId
  {
    seq(|verifiers|, i requires 0 <= i < |verifiers| => verifiers[i].verifierId)
  }

  /** The `byId` map: a later verifier replaces an earlier one with the same id. */
  function GraphOf(verifiers: seq<Verifier>): (g: DependencyGraph)
    ensures forall id :: id in g <==> id in Ids(verifiers)
  {
    if verifiers == [] then map[]
    else
      var n := |verifiers| - 1;
      assert Ids(verifiers) == Ids(verifiers[..n]) + [verifiers[n].verifierId];
      GraphOf(verifiers[..n])[verifiers[n].verifierId := verifiers[n].dependsOn]
  }

  ghost predicate UniqueIds(verifiers: seq<Verifier>) {
    forall i, j | 0 <= i < j < |verifiers| :: verifiers[i].verifierId != verifiers[j].verifierId
  }

  ghost predicate DependenciesPresent(verifiers: seq<Verifier>) {
    forall v, d | v in verifiers && d in v.dependsOn :: d in Ids(verifiers)
  }

  lemma {:induction false} GraphOfFindsEach(verifiers: seq<Verifier>, i: nat)
    requires UniqueIds(verifiers) && i < |verifiers|
    ensures GraphOf(verifiers)[Ids(verifiers)[i]] == verifiers[i].dependsOn
  {
    var n := |verifiers| - 1;
    if i < n {
      assert verifiers[..n][i] == verifiers[i];
      GraphOfFindsEach(verifiers[..n], i);
      assert verifiers[i].verifierId in Ids(verifiers[..n]) by { assert Ids(verifiers[..n])[i]
        == verifiers[i].verifierId; }
    }
  }

  lemma GraphOfClosed(verifiers: seq<Verifier>)
    requires UniqueIds(verifiers) && DependenciesPresent(verifiers)
    ensures Closed(GraphOf(verifiers))
  {
    var g := GraphOf(verifiers);
    forall id, d | id in g && d in g[id] ensures d in g {
      var i :| 0 <= i < |verifiers| && Ids(verifiers)[i] == id;
      GraphOfFindsEach(verifiers, i);
      assert verifiers[i] in verifiers;
    }
  }

  /** The state shared by the nested `visit` calls. */
  class Sorter {
    const byId: DependencyGraph
    var visited: set<string>
    var inStack: set<string>
    var order: seq<string>

    constructor (byId: DependencyGraph)
      ensures this.byId == byId && visited == {} && inStack == {} && order == []
    {
      this.byId := byId;
      visited, inStack, order := {}, {}, [];
    }

    method Visit(id: string) returns (thrown: Option<MeshError>)
      requires Closed(byId) && id in byId
      modifies this
      ensures var r := Graph.Visit(byId, id, old(inStack), old(visited), old(order));
              if r.Done?
              then thrown == None && visited == r.visited && order == r.order && inStack == old(inStack)
              else thrown == Some(DependencyCycle(r.id))
      decreases byId.Keys - visited - inStack
    {
      if id in visited { return None; }
      if id in inStack { return Some(DependencyCycle(id)); }
      inStack := inStack + {id};
      var deps := Sort(byId[id]);
      for i := 0 to |deps|
        invariant inStack == old(inStack) + {id} && old(visited) <= visited
        invariant VisitAll(byId, deps, inStack, old(visited), old(order))
               == VisitAll(byId, deps[i..], inStack, visited, order)
      {
        assert id in byId.Keys - old(visited) - old(inStack);
        assert id !in byId.Keys - visited - inStack;
        assert byId.Keys - visited - inStack < byId.Keys - old(visited) - old(inStack);
        thrown := Visit(deps[i]);
        if thrown.Some? { return; }
        assert deps[i..][1..] == deps[i + 1..];
      }
      inStack := inStack - {id};
      visited := visited + {id};
      order := order + [id];
      return None;
    }
  }

  /** The order the search arrives at; it is a function of the dependency graph alone. */
  function Order(g: DependencyGraph, ids: seq<string>): seq<string>
    requires Closed(g) && forall id :: id in ids <==> id in g
    requires VisitAll(g, Sort(ids), {}, {}, []).Done?
  {
    VisitAll(g, Sort(ids), {}, {}, []).order
  }

  method FindDuplicateId(verifiers: seq<Verifier>) returns (thrown: Option<MeshError>)
    ensures thrown == None <==> UniqueIds(verifiers)
    ensures thrown.Some? ==> thrown.value.DuplicateVerifierId? && multiset(Ids(verifiers))[thrown.value.id] > 1
  {
    var ids := Ids(verifiers);
    var seen: set<string> := {};
    for i := 0 to |verifiers|
      invariant forall x :: x in seen <==> x in ids[..i]
      invariant forall j, k | 0 <= j < k < i :: ids[j] != ids[k]
    {
      if ids[i] in seen {
        var k :| 0 <= k < i && ids[k] == ids[i];
        RepeatedCount(ids, k, i);
        return Some(DuplicateVerifierId(ids[i]));
      }
      seen := seen + {ids[i]};
    }
    return None;
  }

  /** The error names a verifier and a dependency of it that is not registered. */
  ghost predicate IsMissing(verifiers: seq<Verifier>, error: MeshError) {
    error.MissingDependency? &&
    exists v | v in verifiers :: v.verifierId == error.id && error.dependency in v.dependsOn &&
                                 error.dependency !in Ids(verifiers)
  }

  method FindMissingDependency(verifiers: seq<Verifier>) returns (thrown: Option<MeshError>)
    ensures thrown == None <==> DependenciesPresent(verifiers)
    ensures thrown.Some? ==> IsMissing(verifiers, thrown.value)
  {
    var byId := GraphOf(verifiers);
    for i := 0 to |verifiers|
      invariant forall k, d | 0 <= k < i && d in verifiers[k].dependsOn :: d in Ids(verifiers)
    {
      var deps := verifiers[i].dependsOn;
      for j := 0 to |deps|
        invariant forall k | 0 <= k < j :: deps[k] in Ids(verifiers)
      {
        if deps[j] !in byId {
          assert verifiers[i] in verifiers && deps[j] in verifiers[i].dependsOn;
          return Some(MissingDependency(verifiers[i].verifierId, deps[j]));
        }
      }
    }
    return None;
  }

  method SearchInOrder(byId: DependencyGraph, sortedIds: seq<string>) returns (r: Result<seq<string>, MeshError>)
    requires Closed(byId) && forall id | id in sortedIds :: id in byId
    ensures var s := VisitAll(byId, sortedIds, {}, {}, []);
            r == if s.Done? then Success(s.order) else Failure(DependencyCycle(s.id))
  {
    var sorter := new Sorter(byId);
    for i := 0 to |sortedIds|
      invariant sorter.inStack == {}
      invariant VisitAll(byId, sortedIds, {}, {}, [])
             == VisitAll(byId, sortedIds[i..], {}, sorter.visited, sorter.order)
    {
      var thrown := sorter.Visit(sortedIds[i]);
      if thrown.Some? { return Failure(thrown.value); }
      assert sortedIds[i..][1..] == sortedIds[i + 1..];
    }
    return Success(sorter.order);
  }

  /** The error is the one due: its own check fails, those before it pass, and it
      names a culprit. */
  ghost predicate IsDue(verifiers: seq<Verifier>, error: MeshError) {
    match error
    case DuplicateVerifierId(id) => !UniqueIds(verifiers) && multiset(Ids(verifiers))[id] > 1
    case MissingDependency(_, _) => UniqueIds(verifiers) && IsMissing(verifiers, error)
    case DependencyCycle(id) =>
      && UniqueIds(verifiers) && DependenciesPresent(verifiers)
      && exists c :: IsCycle(GraphOf(verifiers), c) && c[0] == id
  }

  /** A result is returned exactly when ids are unique, dependencies exist and
      there is no cycle; each error is thrown exactly when the checks before it
      pass and its own check fails. */
  method TopologicalSort(verifiers: seq<Verifier>) returns (r: Result<seq<string>, MeshError>)
    ensures r.Failure? && r.error.DuplicateVerifierId? <==> !UniqueIds(verifiers)
    ensures r.Failure? && r.error.MissingDependency? <==> UniqueIds(verifiers) && !DependenciesPresent(verifiers)
    ensures r.Failure? && r.error.DependencyCycle? <==>
            UniqueIds(verifiers) && DependenciesPresent(verifiers) && !Acyclic(GraphOf(verifiers))
    ensures r.Failure? ==> IsDue(verifiers, r.error)
    ensures r.Success? ==> Topological(GraphOf(verifiers), r.value) && multiset(r.value) == multiset(Ids(verifiers))
    ensures r.Success? ==> Closed(GraphOf(verifiers))
    ensures r.Success? ==> VisitAll(GraphOf(verifiers), Sort(Ids(verifiers)), {}, {}, []).Done?
                           && r.value == Order(GraphOf(verifiers), Ids(verifiers))
  {
    var thrown := FindDuplicateId(verifiers);
    if thrown.Some? { return Failure(thrown.value); }
    thrown := FindMissingDependency(verifiers);
    if thrown.Some? { return Failure(thrown.value); }
    GraphOfClosed(verifiers);
    var byId := GraphOf(verifiers);
    var sortedIds := Sort(Ids(verifiers));
    SearchDecides(byId, sortedIds);
    r := SearchInOrder(byId, sortedIds);
    if r.Success? {
      SameMembersSameMultiset(r.value, verifiers);
    }
  }

  lemma RepeatedCount(ids: seq<string>, k: nat, i: nat)
    requires k < i < |ids| && ids[k] == ids[i]
    ensures multiset(ids)[ids[i]] > 1
  {
    assert ids == ids[..k] + [ids[k]] + ids[k + 1..i] + [ids[i]] + ids[i + 1..];
  }

  lemma {:induction false} NoRepeatMeansDistinct(s: seq<string>)
    requires forall i, j | 0 <= i < j < |s| :: s[i] != s[j]
    ensures Distinct(s)
  {
    if s != [] {
      NoRepeatMeansDistinct(s[1..]);
      assert s == [s[0]] + s[1..];
    }
  }

  lemma SameMembersSameMultiset(order: seq<string>, verifiers: seq<Verifier>)
    requires UniqueIds(verifiers)
    requires Topological(GraphOf(verifiers), order) && Covers(GraphOf(verifiers), order)
    ensures multiset(order) == multiset(Ids(verifiers))
  {
    NoRepeatMeansDistinct(order);
    NoRepeatMeansDistinct(Ids(verifiers));
    forall i | 0 <= i < |order| ensures order[i] in Ids(verifiers) {
      assert order[i] in GraphOf(verifiers);
    }
    forall x ensures multiset(order)[x] == multiset(Ids(verifiers))[x] {
      assert x in GraphOf(verifiers) ==> x in order;
      assert x in order <==> x in Ids(verifiers);
      assert x in multiset(order) <==> x in order;
      assert x in multiset(Ids(verifiers)) <==> x in Ids(verifiers);
    }
  }

  // ---- Independent verifiers ----

  lemma {:induction false} IndependentKeepOrder(g: DependencyGraph, ids: seq<string>, visited: set<string>,
                                                order: seq<string>)
    requires Closed(g) && forall id | id in g :: g[id] == []
    requires forall id | id in ids :: id in g && id !in visited
    requires forall i, j | 0 <= i < j < |ids| :: ids[i] != ids[j]
    ensures VisitAll(g, ids, {}, visited, order).Done? && VisitAll(g, ids, {}, visited, order).order == order + ids
    decreases |ids|
  {
    if ids == [] {
      assert order + ids == order;
    } else {
      assert Sort(g[ids[0]]) == [];
      assert Visit(g, ids[0], {}, visited, order) == Done(visited + {ids[0]}, order + [ids[0]]);
      IndependentKeepOrder(g, ids[1..], visited + {ids[0]}, order + [ids[0]]);
      assert order + [ids[0]] + ids[1..] == order + ids;
    }
  }

  lemma {:induction false} DistinctMeansNoRepeat(s: seq<string>)
    requires Distinct(s)
    ensures forall i, j | 0 <= i < j < |s| :: s[i] != s[j]
  {
    forall i, j | 0 <= i < j < |s| ensures s[i] != s[j] {
      if s[i] == s[j] { RepeatedCount(s, i, j); }
    }
  }

  ghost predicate NoDependencies(verifiers: seq<Verifier>) { forall v | v in verifiers :: v.dependsOn == [] }

  lemma NothingDepends(verifiers: seq<Verifier>)
    requires UniqueIds(verifiers) && NoDependencies(verifiers)
    ensures Closed(GraphOf(verifiers)) && forall id | id in GraphOf(verifiers) :: GraphOf(verifiers)[id] == []
  {
    GraphOfClosed(verifiers);
    forall id | id in GraphOf(verifiers) ensures GraphOf(verifiers)[id] == [] {
      var k :| 0 <= k < |verifiers| && Ids(verifiers)[k] == id;
      GraphOfFindsEach(verifiers, k);
    }
  }

  lemma SortedIdsDistinct(verifiers: seq<Verifier>)
    requires UniqueIds(verifiers)
    ensures forall i, j | 0 <= i < j < |verifiers| :: Sort(Ids(verifiers))[i] != Sort(Ids(verifiers))[j]
  {
    NoRepeatMeansDistinct(Ids(verifiers));
    SameMultiset(Sort(Ids(verifiers)), Ids(verifiers));
    DistinctMeansNoRepeat(Sort(Ids(verifiers)));
  }

  lemma IndependentAreSorted(verifiers: seq<Verifier>)
    requires UniqueIds(verifiers) && NoDependencies(verifiers)
    ensures Closed(GraphOf(verifiers)) && VisitAll(GraphOf(verifiers), Sort(Ids(verifiers)), {}, {}, []).Done?
    ensures Order(GraphOf(verifiers), Ids(verifiers)) == Sort(Ids(verifiers))
  {
    NothingDepends(verifiers);
    SortedIdsDistinct(verifiers);
    IndependentKeepOrder(GraphOf(verifiers), Sort(Ids(verifiers)), {}, []);
    assert [] + Sort(Ids(verifiers)) == Sort(Ids(verifiers));
  }

  /** Verifiers without dependencies are listed by id, the first difference deciding. */
  lemma IndependentInTextOrder(verifiers: seq<Verifier>, i: nat, j: nat)
    requires UniqueIds(verifiers) && NoDependencies(verifiers) && i < j < |verifiers|
    ensures Closed(GraphOf(verifiers)) && VisitAll(GraphOf(verifiers), Sort(Ids(verifiers)), {}, {}, []).Done?
    ensures var order := Order(GraphOf(verifiers), Ids(verifiers));
            |order| == |verifiers| && order[i] != order[j] && ComesFirst(order[i], order[j])
  {
    IndependentAreSorted(verifiers);
    SortedIdsDistinct(verifiers);
    LexLeqExactly(Sort(Ids(verifiers))[i], Sort(Ids(verifiers))[j]);
  }

  // ---- Registration order ----

  /** The second list registers the same verifiers as the first: the same ids,
      and id by id the same dependencies, each in any order. */
  ghost predicate SameRegistrations(a: seq<Verifier>, b: seq<Verifier>) {
    && multiset(Ids(a)) == multiset(Ids(b))
    && UniqueIds(a) && UniqueIds(b)
    && SameUpToOrder(GraphOf(a), GraphOf(b))
  }

  /** The order does not depend on how the verifiers were registered. */
  lemma OrderIgnoresRegistration(a: seq<Verifier>, b: seq<Verifier>)
    requires SameRegistrations(a, b)
    requires Closed(GraphOf(a)) && Closed(GraphOf(b))
    ensures VisitAll(GraphOf(a), Sort(Ids(a)), {}, {}, []) == VisitAll(GraphOf(b), Sort(Ids(b)), {}, {}, [])
  {
    SortIgnoresOrder(Ids(a), Ids(b));
    VisitAllIgnoresOrder(GraphOf(a), GraphOf(b), Sort(Ids(a)), {}, {}, []);
  }
}

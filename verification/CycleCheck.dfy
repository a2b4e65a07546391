/**
 The depth-first cycle check used for prerequisites, hierarchies, task dependencies and learning graphs.
 It answers yes exactly when the graph has a directed cycle, and a graph it accepts can be laid out with
 every node after the nodes it needs.
 */
module CycleCheck {
  import opened Model

  type Graph = map<Id, set<Id>>

  /** A node with no entry needs nothing. */
  function Needs(edges: Graph, node: Id): set<Id> { if node in edges then edges[node] else {} }

  function Nodes(edges: Graph): set<Id> {
    edges.Keys + set n, m | n in edges && m in edges[n] :: m
  }

  // ---- Cycles and layouts -----------------------------------------------------------------------

  ghost predicate IsPath(edges: Graph, path: seq<Id>) {
    forall i :: 0 <= i < |path| - 1 ==> path[i + 1] in Needs(edges, path[i])
  }

  ghost predicate IsCycle(edges: Graph, path: seq<Id>) {
    |path| >= 2 && path[0] == path[|path| - 1] && IsPath(edges, path)
  }

  ghost predicate HasCycle(edges: Graph) {
    exists path :: IsCycle(edges, path)
  }

  /** A list in which every node occurs once, after everything it needs. */
  ghost predicate LaidOut(edges: Graph, order: seq<Id>) {
    && (forall i, j :: 0 <= i < j < |order| ==> order[i] != order[j])
    && forall i :: 0 <= i < |order| ==> NeedsMet(edges, order, i)
  }

  ghost predicate NeedsMet(edges: Graph, order: seq<Id>, i: nat)
    requires i < |order|
  {
    forall m :: m in Needs(edges, order[i]) ==> m in order[..i]
  }

  /** Positions fall along every path, so a layout of all the nodes rules cycles out. */
  lemma {:induction false} LayoutsHaveNoCycle(edges: Graph, order: seq<Id>)
    requires LaidOut(edges, order) && forall n :: n in edges ==> n in order
    ensures !HasCycle(edges)
  {
    forall path | IsCycle(edges, path) ensures false {
      assert path[0 + 1] in Needs(edges, path[0]);
      var i :| 0 <= i < |order| && order[i] == path[0];
      PositionsFallAlongPaths(edges, order, path, |path| - 1, i);
    }
  }

  lemma {:induction false} PositionsFallAlongPaths(edges: Graph, order: seq<Id>, path: seq<Id>, k: nat, i: nat)
    requires LaidOut(edges, order) && IsPath(edges, path) && 0 < |path| && k < |path| && i < |order|
    requires order[i] == path[0]
    ensures exists j :: 0 <= j <= i - k && order[j] == path[k]
  {
    if k > 0 {
      PositionsFallAlongPaths(edges, order, path, k - 1, i);
      var j :| 0 <= j <= i - (k - 1) && order[j] == path[k - 1];
      assert NeedsMet(edges, order, j);
      assert path[k - 1 + 1] in Needs(edges, path[k - 1]);
    }
  }

  // ---- The search -------------------------------------------------------------------------------

  class Search {
    const edges: Graph
    var visiting: set<Id>
    var visited: set<Id>
    ghost var order: seq<Id>

    /** Finished nodes are laid out; the nodes being visited form a path that has not closed. */
    ghost predicate Valid()
      reads this
    {
      && LaidOut(edges, order)
      && (forall n :: n in order <==> n in visited)
      && visiting !! visited
      && visiting + visited <= Nodes(edges)
    }

    constructor (edges: Graph)
      ensures Valid() && this.edges == edges && visiting == {} && visited == {}
    {
      this.edges, visiting, visited, order := edges, {}, {}, [];
    }

    /** The path leads from the start of the search to the node, through exactly the nodes being visited. */
    ghost predicate Leads(path: seq<Id>, node: Id)
      reads this
    {
      && IsPath(edges, path + [node])
      && forall n :: n in path <==> n in visiting
    }

    method Visit(node: Id, ghost path: seq<Id>) returns (found: bool)
      requires Valid() && node in Nodes(edges) && Leads(path, node)
      modifies this
      ensures found ==> HasCycle(edges)
      ensures !found ==> Valid() && visiting == old(visiting) && old(visited) + {node} <= visited
      decreases Nodes(edges) - visiting - visited
    {
      if node in visiting {
        ClosedPath(edges, path, node);
        return true;
      }
      if node in visited {
        return false;
      }
      ghost var room := Nodes(edges) - visiting - visited;
      visiting := visiting + {node};
      var todo := Needs(edges, node);
      ghost var before, after := visited, path + [node];
      while todo != {}
        invariant Valid() && visiting == old(visiting) + {node} && before <= visited && node !in visited
        invariant todo <= Needs(edges, node) && Needs(edges, node) - todo <= visited
        decreases todo
      {
        var prerequisite :| prerequisite in todo;
        todo := todo - {prerequisite};
        assert Leads(after, prerequisite) by { ExtendsPath(edges, path, node, prerequisite); }
        assert Nodes(edges) - visiting - visited < room by {
          assert node in room && node !in Nodes(edges) - visiting - visited;
        }
        found := Visit(prerequisite, after);
        if found {
          return true;
        }
      }
      assert LaidOut(edges, order + [node]) by { LayOutNext(edges, order, node); }
      visiting := visiting - {node};
      visited := visited + {node};
      order := order + [node];
      return false;
    }
  }

  lemma {:induction false} ClosedPath(edges: Graph, path: seq<Id>, node: Id)
    requires IsPath(edges, path + [node]) && node in path
    ensures HasCycle(edges)
  {
    var i :| 0 <= i < |path| && path[i] == node;
    var cycle := (path + [node])[i..];
    forall k | 0 <= k < |cycle| - 1 ensures cycle[k + 1] in Needs(edges, cycle[k]) {
      assert (path + [node])[i + k + 1] in Needs(edges, (path + [node])[i + k]);
    }
    assert IsCycle(edges, cycle);
  }

  lemma {:induction false} ExtendsPath(edges: Graph, path: seq<Id>, node: Id, next: Id)
    requires IsPath(edges, path + [node]) && next in Needs(edges, node)
    ensures IsPath(edges, path + [node] + [next])
  {
    var longer := path + [node] + [next];
    forall k | 0 <= k < |longer| - 1 ensures longer[k + 1] in Needs(edges, longer[k]) {
      if k + 1 < |path + [node]| {
        assert (path + [node])[k + 1] in Needs(edges, (path + [node])[k]);
      }
    }
  }

  lemma {:induction false} LayOutNext(edges: Graph, order: seq<Id>, node: Id)
    requires LaidOut(edges, order) && node !in order && forall m :: m in Needs(edges, node) ==> m in order
    ensures LaidOut(edges, order + [node])
  {
    var longer := order + [node];
    forall i | 0 <= i < |longer| ensures NeedsMet(edges, longer, i) {
      assert longer[..i] == order[..i];
      if i < |order| {
        assert NeedsMet(edges, order, i);
      } else {
        assert order[..i] == order;
      }
    }
  }

  /** The answer is yes exactly when there is a cycle, and no comes with a layout of all the nodes. */
  method HasRequiredDependencyCycle(edges: Graph) returns (found: bool, ghost order: seq<Id>)
    ensures found <==> HasCycle(edges)
    ensures !found ==> LaidOut(edges, order) && forall n :: n in order <==> n in Nodes(edges)
  {
    var search := new Search(edges);
    var todo := edges.Keys;
    order := [];
    while todo != {}
      invariant search.Valid() && search.visiting == {} && search.edges == edges
      invariant todo <= edges.Keys && edges.Keys - todo <= search.visited
      decreases todo
    {
      var node :| node in todo;
      todo := todo - {node};
      found := search.Visit(node, []);
      if found {
        return;
      }
    }
    found, order := false, search.order;
    LayoutsHaveNoCycle(edges, order);
    forall n | n in Nodes(edges) ensures n in order { LayoutsAreClosed(edges, order, n); }
  }

  lemma {:induction false} LayoutsAreClosed(edges: Graph, order: seq<Id>, n: Id)
    requires LaidOut(edges, order) && (forall k :: k in edges ==> k in order) && n in Nodes(edges)
    ensures n in order
  {
    if n !in edges {
      var k :| k in edges && n in edges[k];
      var i :| 0 <= i < |order| && order[i] == k;
      assert NeedsMet(edges, order, i) && n in Needs(edges, order[i]);
      assert n in order[..i];
    }
  }

  // ---- Accepting the hard dependencies of a project version -------------------------------------

  datatype Dependency = Dependency(dependent: Id, prerequisite: Id, hard: bool)

  datatype DependencyVerdict = CrossesVersions | DependencyCycle | Orderable

  ghost predicate HardEdge(dependencies: seq<Dependency>, node: Id, prerequisite: Id) {
    Dependency(node, prerequisite, true) in dependencies
  }

  ghost predicate Inside(tasks: set<Id>, d: Dependency) { d.dependent in tasks && d.prerequisite in tasks }

  /** The graph of a version's tasks and hard dependencies. */
  ghost predicate IsHardGraph(edges: Graph, tasks: set<Id>, dependencies: seq<Dependency>) {
    && edges.Keys == tasks
    && forall n, m :: n in edges ==> (m in edges[n] <==> HardEdge(dependencies, n, m))
  }

  /** An order of work in which no task comes before a hard prerequisite of its own. */
  ghost predicate WorkOrder(order: seq<Id>, tasks: set<Id>, dependencies: seq<Dependency>) {
    && (forall t :: t in tasks <==> t in order)
    && (forall i, j :: 0 <= i < j < |order| ==> order[i] != order[j])
    && forall i, j :: 0 <= i <= j < |order| ==> !HardEdge(dependencies, order[i], order[j])
  }

  method ValidateDependencies(tasks: set<Id>, dependencies: seq<Dependency>) returns (verdict: DependencyVerdict)
    ensures verdict == CrossesVersions <==> exists d :: d in dependencies && !Inside(tasks, d)
    ensures verdict == Orderable ==> exists order :: WorkOrder(order, tasks, dependencies)
    ensures verdict == DependencyCycle ==> !exists order :: WorkOrder(order, tasks, dependencies)
  {
    var edges: Graph := map t | t in tasks :: {};
    for i := 0 to |dependencies|
      invariant IsHardGraph(edges, tasks, dependencies[..i])
      invariant forall d :: d in dependencies[..i] ==> Inside(tasks, d)
    {
      var d := dependencies[i];
      assert dependencies[..i + 1] == dependencies[..i] + [d];
      if d.dependent !in tasks || d.prerequisite !in tasks {
        assert d in dependencies && !Inside(tasks, d);
        return CrossesVersions;
      }
      if d.hard {
        edges := edges[d.dependent := edges[d.dependent] + {d.prerequisite}];
      }
    }
    assert dependencies[..|dependencies|] == dependencies;
    var cyclic, order := HasRequiredDependencyCycle(edges);
    if cyclic {
      verdict := DependencyCycle;
      forall order | WorkOrder(order, tasks, dependencies) ensures false {
        WorkOrdersLayOut(edges, order, tasks, dependencies);
      }
    } else {
      verdict := Orderable;
      LayoutsOrderWork(edges, order, tasks, dependencies);
    }
  }

  lemma {:induction false} LayoutsOrderWork(edges: Graph, order: seq<Id>, tasks: set<Id>, dependencies: seq<Dependency>)
    requires IsHardGraph(edges, tasks, dependencies) && forall d :: d in dependencies ==> Inside(tasks, d)
    requires LaidOut(edges, order) && forall n :: n in order <==> n in Nodes(edges)
    ensures WorkOrder(order, tasks, dependencies)
  {
    forall i, j | 0 <= i <= j < |order| ensures !HardEdge(dependencies, order[i], order[j]) {
      assert NeedsMet(edges, order, i) && order[i] in edges;
      assert order[j] !in order[..i];
    }
  }

  lemma {:induction false} WorkOrdersLayOut(edges: Graph, order: seq<Id>, tasks: set<Id>, dependencies: seq<Dependency>)
    requires IsHardGraph(edges, tasks, dependencies) && forall d :: d in dependencies ==> Inside(tasks, d)
    requires WorkOrder(order, tasks, dependencies)
    ensures !HasCycle(edges)
  {
    forall i | 0 <= i < |order| ensures NeedsMet(edges, order, i) {
      forall m | m in Needs(edges, order[i]) ensures m in order[..i] {
        assert HardEdge(dependencies, order[i], m) && Inside(tasks, Dependency(order[i], m, true));
        var j :| 0 <= j < |order| && order[j] == m;
        assert !(i <= j);
      }
    }
    LayoutsHaveNoCycle(edges, order);
  }
}

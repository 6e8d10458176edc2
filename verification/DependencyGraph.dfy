/** The package dependency graph of internal/bundle/dependency.go: construction and cycle detection. */
module DependencyGraph {
  import opened Wrappers
  import opened Sequences
  import opened Walks

  datatype Package =
    Package(name: string, source: string, dependsOn: seq<string>, optionalComponents: seq<string>)

  datatype GraphError =
    | UnknownPackageDependency(package: string, dependency: string)
    | DependencyCycle

  /** Packages by name, and edges from a package to the packages it depends on. */
  datatype Dag = Dag(packages: map<string, Package>, edges: Graph) {
    ghost predicate Valid() {
      && edges.Keys == packages.Keys
      && (forall n :: n in packages ==> packages[n].name == n && edges[n] == packages[n].dependsOn)
      && ClosedGraph(edges)
    }
  }

  /** Every dependency is itself a vertex. */
  ghost predicate ClosedGraph(g: Graph) {
    forall a, b :: Edge(g, a, b) ==> b in g
  }

  /** The last declaration of every name. */
  function Declared(bundle: seq<Package>): map<string, Package> {
    if bundle == [] then map[]
    else Declared(bundle[..|bundle| - 1])[bundle[|bundle| - 1].name := bundle[|bundle| - 1]]
  }

  lemma DeclaredNames(bundle: seq<Package>)
    ensures forall n :: n in Declared(bundle) ==> Declared(bundle)[n].name == n && Declared(bundle)[n] in bundle
    ensures forall p :: p in bundle ==> p.name in Declared(bundle)
  {
    if bundle != [] {
      var init := bundle[..|bundle| - 1];
      DeclaredNames(init);
      assert bundle == init + [bundle[|bundle| - 1]];
    }
  }

  function DeclaredEdges(bundle: seq<Package>): Graph {
    var packages := Declared(bundle);
    map n | n in packages :: packages[n].dependsOn
  }

  /** What the search keeps: path lists the active calls, outermost first, and finished the calls that have returned, in
      that order. */
  ghost predicate SearchState(g: Graph, visited: set<string>, recStack: set<string>,
                              path: seq<string>, finished: seq<string>) {
    && NoDuplicates(path) && NoDuplicates(finished)
    && recStack == Elements(path)
    && visited == recStack + Elements(finished)
    && recStack !! Elements(finished)
    && visited <= g.Keys
    && DependenciesFirst(g, finished)
    && (path != [] ==> IsWalk(g, path))
  }

  lemma Enter(g: Graph, visited: set<string>, recStack: set<string>, path: seq<string>, finished: seq<string>,
              name: string)
    requires SearchState(g, visited, recStack, path, finished)
    requires name in g && name !in visited
    requires path != [] ==> Edge(g, path[|path| - 1], name)
    ensures SearchState(g, visited + {name}, recStack + {name}, path + [name], finished)
  {
    assert Elements(path + [name]) == Elements(path) + {name};
    assert name !in Elements(path);
  }

  lemma Leave(g: Graph, visited: set<string>, recStack: set<string>, path: seq<string>, finished: seq<string>,
              name: string)
    requires SearchState(g, visited, recStack, path + [name], finished)
    requires name in g && forall d :: d in g[name] ==> d in visited && d !in recStack
    ensures SearchState(g, visited, recStack - {name}, path, finished + [name])
  {
    var whole := path + [name];
    assert Elements(whole) == Elements(path) + {name};
    assert whole[..|path|] == path && whole[|path|] == name;
    assert name !in Elements(path);
    assert Elements(finished + [name]) == Elements(finished) + {name};
    assert name in recStack && name !in Elements(finished);
    if path != [] {
      forall i | 0 <= i < |path| - 1 ensures Edge(g, path[i], path[i + 1]) {
        assert Edge(g, whole[i], whole[i + 1]);
      }
    }
    var listed := finished + [name];
    forall i, d | 0 <= i < |listed| && Edge(g, listed[i], d) ensures d in listed[..i] {
      assert listed[..i] == finished[..i];
      if i == |finished| {
        assert d in Elements(finished) && finished[..i] == finished;
      }
    }
  }

  /** An edge from the top of the stack back into the stack closes a cycle. */
  lemma ClosingEdgeCyclic(g: Graph, path: seq<string>, back: string)
    requires path != [] && IsWalk(g, path) && Edge(g, path[|path| - 1], back) && back in path
    ensures Cyclic(g)
  {
    var k :| 0 <= k < |path| && path[k] == back;
    var q := path + [back];
    assert IsWalk(g, q);
    RevisitCyclic(g, q, k, |path|);
  }

  /** The variables that the recursive closure of detectCycles captures. */
  class CycleDetector {
    const edges: Graph
    var visited: set<string>
    var recStack: set<string>
    ghost var path: seq<string>
    ghost var finished: seq<string>

    ghost predicate Valid()
      reads this
    {
      SearchState(edges, visited, recStack, path, finished)
    }

    constructor (edges: Graph)
      ensures Valid() && this.edges == edges && visited == {} && path == []
    {
      this.edges := edges;
      visited, recStack := {}, {};
      path, finished := [], [];
    }

    method Dfs(name: string) returns (cycle: bool)
      requires Valid() && ClosedGraph(edges)
      requires name in edges && name !in visited
      requires path != [] ==> Edge(edges, path[|path| - 1], name)
      modifies this
      decreases edges.Keys - visited
      ensures cycle ==> Cyclic(edges)
      ensures !cycle ==> Valid() && path == old(path) && name in visited && old(visited) <= visited
    {
      Enter(edges, visited, recStack, path, finished, name);
      visited := visited + {name};
      recStack := recStack + {name};
      path := path + [name];
      var deps := edges[name];
      for i := 0 to |deps|
        invariant Valid() && path == old(path) + [name] && visited >= old(visited) + {name}
        invariant forall j :: 0 <= j < i ==> deps[j] in visited && deps[j] !in recStack
      {
        var dep := deps[i];
        assert Edge(edges, name, dep);
        if dep !in visited {
          var found := Dfs(dep);
          if found {
            return true;
          }
        } else if dep in recStack {
          ClosingEdgeCyclic(edges, path, dep);
          return true;
        }
      }
      Leave(edges, visited, recStack, old(path), finished, name);
      recStack := recStack - {name};
      path := old(path);
      finished := finished + [name];
      return false;
    }
  }

  /** A depth-first search with a recursion stack reports an error exactly on cyclic graphs. */
  method DetectCycles(dag: Dag) returns (cycle: bool)
    requires dag.Valid()
    ensures cycle <==> Cyclic(dag.edges)
  {
    var detector := new CycleDetector(dag.edges);
    var todo := dag.packages.Keys;
    while todo != {}
      invariant detector.edges == dag.edges && detector.Valid() && detector.path == []
      invariant todo <= dag.packages.Keys && dag.packages.Keys - todo <= detector.visited
      decreases |todo|
    {
      var name :| name in todo;
      todo := todo - {name};
      if name !in detector.visited {
        var found := detector.Dfs(name);
        if found {
          return true;
        }
      }
    }
    forall p | IsCycle(dag.edges, p) ensures false {
      assert Edge(dag.edges, p[0], p[1]);
      assert p[0] in Elements(detector.finished);
      ListedNotRevisited(dag.edges, detector.finished, p);
    }
    return false;
  }

  /** The edges of every package, or some reference to a name that is not declared. */
  method CollectEdges(packages: map<string, Package>) returns (r: Result<Graph, GraphError>)
    requires forall n :: n in packages ==> packages[n].name == n
    ensures r.Ok? ==> r.value == (map n | n in packages :: packages[n].dependsOn)
    ensures r.Ok? ==> forall n, d :: n in packages && d in packages[n].dependsOn ==> d in packages
    ensures r.Err? ==> && r.error.UnknownPackageDependency? && r.error.package in packages
                       && r.error.dependency in packages[r.error.package].dependsOn
                       && r.error.dependency !in packages
  {
    var edges: Graph := map[];
    var todo := packages.Keys;
    while todo != {}
      invariant todo <= packages.Keys && edges.Keys == packages.Keys - todo
      invariant forall n :: n in edges ==> edges[n] == packages[n].dependsOn
      invariant forall n, d :: n in edges && d in edges[n] ==> d in packages
      decreases |todo|
    {
      var name :| name in todo;
      todo := todo - {name};
      var pkg := packages[name];
      var deps: seq<string> := [];
      for i := 0 to |pkg.dependsOn|
        invariant deps == pkg.dependsOn[..i]
        invariant forall d :: d in deps ==> d in packages
      {
        var ref := pkg.dependsOn[i];
        if ref !in packages {
          return Err(UnknownPackageDependency(pkg.name, ref));
        }
        deps := deps + [packages[ref].name];
      }
      edges := edges[pkg.name := deps];
    }
    return Ok(edges);
  }

  /** Construction succeeds exactly when every reference is known and the edges are acyclic. */
  method BuildDependencyGraph(bundle: seq<Package>) returns (r: Result<Dag, GraphError>)
    ensures r.Ok? <==> ClosedGraph(DeclaredEdges(bundle)) && !Cyclic(DeclaredEdges(bundle))
    ensures r.Ok? ==> r.value.Valid() && r.value.packages == Declared(bundle)
    ensures r.Ok? ==> r.value.edges == DeclaredEdges(bundle)
    ensures r.Err? && r.error.UnknownPackageDependency? ==>
              && Edge(DeclaredEdges(bundle), r.error.package, r.error.dependency)
              && r.error.dependency !in Declared(bundle)
    ensures r.Err? && r.error.DependencyCycle? ==>
              ClosedGraph(DeclaredEdges(bundle)) && Cyclic(DeclaredEdges(bundle))
  {
    var packages: map<string, Package> := map[];
    for i := 0 to |bundle|
      invariant packages == Declared(bundle[..i])
    {
      assert bundle[..i + 1][..i] == bundle[..i];
      packages := packages[bundle[i].name := bundle[i]];
    }
    assert bundle[..|bundle|] == bundle;
    DeclaredNames(bundle);
    var collected := CollectEdges(packages);
    match collected {
      case Err(e) =>
        assert Edge(DeclaredEdges(bundle), e.package, e.dependency);
        return Err(e);
      case Ok(edges) =>
        assert edges == DeclaredEdges(bundle);
        assert ClosedGraph(edges);
        var dag := Dag(packages, edges);
        var cycle := DetectCycles(dag);
        if cycle {
          return Err(DependencyCycle);
        }
        return Ok(dag);
    }
  }
}

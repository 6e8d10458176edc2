/** Kahn's algorithm in waves, selections and safety checks of internal/bundle/dependency.go. */
module DeploymentOrder {
  import opened Wrappers
  import opened Sequences
  import opened Ordering
  import opened Walks
  import opened Levels
  import opened DependencyGraph

  /** How many occurrences in deps are not done: duplicates in depends_on count each time. */
  function Unmet(deps: seq<string>, done: set<string>): nat {
    if deps == [] then 0 else (if deps[0] in done then 0 else 1) + Unmet(deps[1..], done)
  }

  lemma {:induction false} UnmetZero(deps: seq<string>, done: set<string>)
    ensures Unmet(deps, done) == 0 <==> forall d :: d in deps ==> d in done
  {
    if deps != [] {
      UnmetZero(deps[1..], done);
      assert deps == [deps[0]] + deps[1..];
    }
  }

  lemma {:induction false} UnmetAll(deps: seq<string>)
    ensures Unmet(deps, {}) == |deps|
  {
    if deps != [] {
      UnmetAll(deps[1..]);
    }
  }

  /** Finishing p meets every occurrence of p at once. */
  lemma {:induction false} UnmetStep(deps: seq<string>, done: set<string>, p: string)
    requires p !in done
    ensures Unmet(deps, done + {p}) == Unmet(deps, done) - multiset(deps)[p]
  {
    if deps != [] {
      UnmetStep(deps[1..], done, p);
      assert deps == [deps[0]] + deps[1..];
      assert multiset(deps) == multiset{deps[0]} + multiset(deps[1..]);
    }
  }

  function Get(m: map<string, seq<string>>, k: string): seq<string> {
    if k in m then m[k] else []
  }

  function Listed(m: map<string, seq<string>>, k: string, n: string): nat {
    multiset(Get(m, k))[n]
  }

  /** dependents lists n under d as often as g lists d under n. */
  ghost predicate Reverses(g: Graph, names: set<string>, dependents: map<string, seq<string>>) {
    forall d, n :: Listed(dependents, d, n) == if n in names && n in g then multiset(g[n])[d] else 0
  }

  lemma AppendListed(m: map<string, seq<string>>, k: string, x: string, d: string, n: string)
    ensures Listed(m[k := Get(m, k) + [x]], d, n) == Listed(m, d, n) + if d == k && n == x then 1 else 0
  {
  }

  method AddDependent(before: map<string, seq<string>>, name: string, deps: seq<string>)
    returns (dependents: map<string, seq<string>>)
    ensures forall d, n :: Listed(dependents, d, n) ==
                           Listed(before, d, n) + if n == name then multiset(deps)[d] else 0
  {
    dependents := before;
    for i := 0 to |deps|
      invariant forall d, n :: Listed(dependents, d, n) ==
                               Listed(before, d, n) + if n == name then multiset(deps[..i])[d] else 0
    {
      var dep := deps[i];
      assert deps[..i + 1] == deps[..i] + [dep];
      ghost var m := dependents;
      dependents := dependents[dep := Get(dependents, dep) + [name]];
      forall d, n ensures Listed(dependents, d, n) ==
                          Listed(before, d, n) + if n == name then multiset(deps[..i + 1])[d] else 0 {
        AppendListed(m, dep, name, d, n);
      }
    }
    assert deps[..|deps|] == deps;
  }

  method ReverseEdges(g: Graph) returns (dependents: map<string, seq<string>>)
    ensures Reverses(g, g.Keys, dependents)
  {
    dependents := map[];
    var todo := g.Keys;
    while todo != {}
      invariant todo <= g.Keys
      invariant Reverses(g, g.Keys - todo, dependents)
      decreases |todo|
    {
      var name :| name in todo;
      todo := todo - {name};
      dependents := AddDependent(dependents, name, g[name]);
    }
  }

  /** The in-degree of every package: -1 once placed, else its unmet dependency occurrences. */
  ghost predicate InDegrees(g: Graph, inDegree: map<string, int>, done: set<string>) {
    inDegree.Keys == g.Keys &&
    forall n :: n in g ==> inDegree[n] == if n in done then -1 else Unmet(g[n], done)
  }

  /** The in-degrees while pkg is being placed and the listed dependents have been released. */
  ghost predicate PartlyReleased(g: Graph, inDegree: map<string, int>, done: set<string>, pkg: string,
                                 released: multiset<string>) {
    inDegree.Keys == g.Keys &&
    forall n :: n in g ==>
      (inDegree[n] == if n in done || n == pkg then -1 else Unmet(g[n], done) - released[n])
  }

  lemma ReleaseOne(g: Graph, inDegree: map<string, int>, done: set<string>, pkg: string,
                   released: multiset<string>, n: string)
    requires PartlyReleased(g, inDegree, done, pkg, released)
    requires n in g && released[n] < Unmet(g[n], done)
    ensures PartlyReleased(g, if inDegree[n] > 0 then inDegree[n := inDegree[n] - 1] else inDegree,
                           done, pkg, released + multiset{n})
  {
  }

  lemma PrefixCount(xs: seq<string>, i: nat)
    requires i < |xs|
    ensures multiset(xs[..i + 1]) == multiset(xs[..i]) + multiset{xs[i]}
    ensures multiset(xs[..i])[xs[i]] < multiset(xs)[xs[i]]
    ensures xs[i] in xs
  {
    assert xs[..i + 1] == xs[..i] + [xs[i]];
    assert xs == xs[..i + 1] + xs[i + 1..];
  }

  lemma FreedCounts(g: Graph, dependents: map<string, seq<string>>, pkg: string, done: set<string>)
    requires Reverses(g, g.Keys, dependents) && pkg !in done
    ensures var freed := Get(dependents, pkg);
            && (forall n :: n in freed ==> n in g)
            && (forall n :: n in g ==> multiset(freed)[n] == multiset(g[n])[pkg])
            && (forall n :: n in g ==> multiset(freed)[n] <= Unmet(g[n], done))
  {
    var freed := Get(dependents, pkg);
    forall n ensures multiset(freed)[n] == if n in g then multiset(g[n])[pkg] else 0 {
      assert Listed(dependents, pkg, n) == multiset(freed)[n];
    }
    forall n | n in freed ensures n in g {
      assert multiset(freed)[n] > 0;
    }
    forall n | n in g { UnmetStep(g[n], done, pkg); }
  }

  /** The first i dependents have been released. */
  ghost predicate Releasing(g: Graph, inDegree: map<string, int>, done: set<string>, pkg: string, freed: seq<string>,
                            i: nat)
    requires i <= |freed|
  {
    PartlyReleased(g, inDegree, done, pkg, multiset(freed[..i]))
  }

  lemma NoneReleased(g: Graph, before: map<string, int>, done: set<string>, pkg: string, freed: seq<string>)
    requires InDegrees(g, before, done) && pkg in g
    ensures Releasing(g, before[pkg := -1], done, pkg, freed, 0)
  {
  }

  lemma ReleaseNext(g: Graph, dependents: map<string, seq<string>>, inDegree: map<string, int>, done: set<string>,
                    pkg: string, i: nat)
    requires Reverses(g, g.Keys, dependents) && pkg !in done
    requires var freed := Get(dependents, pkg); i < |freed| && Releasing(g, inDegree, done, pkg, freed, i)
    ensures var freed := Get(dependents, pkg);
            && freed[i] in g && inDegree.Keys == g.Keys
            && Releasing(g, if inDegree[freed[i]] > 0 then inDegree[freed[i] := inDegree[freed[i]] - 1] else inDegree,
                         done, pkg, freed, i + 1)
  {
    var freed := Get(dependents, pkg);
    FreedCounts(g, dependents, pkg, done);
    PrefixCount(freed, i);
    ReleaseOne(g, inDegree, done, pkg, multiset(freed[..i]), freed[i]);
  }

  lemma AllReleased(g: Graph, dependents: map<string, seq<string>>, inDegree: map<string, int>, done: set<string>,
                    pkg: string)
    requires Reverses(g, g.Keys, dependents) && pkg !in done
    requires var freed := Get(dependents, pkg); Releasing(g, inDegree, done, pkg, freed, |freed|)
    ensures InDegrees(g, inDegree, done + {pkg})
  {
    var freed := Get(dependents, pkg);
    FreedCounts(g, dependents, pkg, done);
    assert freed[..|freed|] == freed;
    forall n | n in g { UnmetStep(g[n], done, pkg); }
  }

  /** Marks pkg as placed and releases its dependents. */
  method Release(g: Graph, dependents: map<string, seq<string>>, before: map<string, int>, pkg: string,
                 ghost done: set<string>)
    returns (inDegree: map<string, int>)
    requires Reverses(g, g.Keys, dependents) && InDegrees(g, before, done)
    requires pkg in g && pkg !in done
    ensures InDegrees(g, inDegree, done + {pkg})
  {
    inDegree := before[pkg := -1];
    var freed := Get(dependents, pkg);
    NoneReleased(g, before, done, pkg, freed);
    for i := 0 to |freed|
      invariant Releasing(g, inDegree, done, pkg, freed, i)
    {
      var dependent := freed[i];
      ReleaseNext(g, dependents, inDegree, done, pkg, i);
      if inDegree[dependent] > 0 {
        inDegree := inDegree[dependent := inDegree[dependent] - 1];
      }
    }
    AllReleased(g, dependents, inDegree, done, pkg);
  }

  /** The names whose in-degree is zero, in any order. */
  method Ready(inDegree: map<string, int>) returns (level: seq<string>)
    ensures NoDuplicates(level)
    ensures forall n :: n in level <==> n in inDegree && inDegree[n] == 0
  {
    level := [];
    var todo := inDegree.Keys;
    while todo != {}
      invariant todo <= inDegree.Keys && NoDuplicates(level)
      invariant forall n :: n in level <==> n in inDegree.Keys - todo && inDegree[n] == 0
      decreases |todo|
    {
      var name :| name in todo;
      todo := todo - {name};
      if inDegree[name] == 0 {
        level := level + [name];
      }
    }
  }

  /** A vertex not placed yet had a dependency that was missing when the last level was formed. */
  ghost predicate Lagging(g: Graph, levels: Levels, n: string) {
    exists d :: Edge(g, n, d) && !(0 <= LevelOf(levels, d) < |levels| - 1)
  }

  ghost predicate LevellingSoFar(g: Graph, levels: Levels, done: set<string>) {
    && done <= g.Keys && Partition(levels, done)
    && (forall n, d :: n in done && Edge(g, n, d) ==> 0 <= LevelOf(levels, d) < LevelOf(levels, n))
    && (forall n {:trigger Tight(g, levels, n)} :: n in done && LevelOf(levels, n) > 0 ==> Tight(g, levels, n))
    && (forall n {:trigger Lagging(g, levels, n)} ::
          n in g && n !in done && levels != [] ==> Lagging(g, levels, n))
  }

  /** The members of the next level: unplaced, with every dependency placed. */
  ghost predicate NextLevel(g: Graph, done: set<string>, level: seq<string>) {
    && level != [] && StrictlySorted(Below, level)
    && forall n :: n in level <==> n in g && n !in done && forall d :: d in g[n] ==> d in done
  }

  lemma LevelsAfter(levels: Levels, done: set<string>, level: seq<string>)
    requires Partition(levels, done)
    requires forall n :: n in level ==> n !in done
    ensures forall n :: n in done ==> LevelOf(levels + [level], n) == LevelOf(levels, n)
    ensures forall n :: n in level ==> LevelOf(levels + [level], n) == |levels|
    ensures forall n :: n !in level ==> LevelOf(levels + [level], n) == LevelOf(levels, n)
  {
    forall n { LevelOfSnoc(levels, level, n); }
  }

  lemma AddPartition(levels: Levels, done: set<string>, level: seq<string>)
    requires Partition(levels, done) && level != [] && StrictlySorted(Below, level)
    requires forall n :: n in level ==> n !in done
    ensures Partition(levels + [level], done + Elements(level))
  {
    LevelsAfter(levels, done, level);
    var more := levels + [level];
    forall i, n | 0 <= i < |more| && n in more[i] ensures LevelOf(more, n) == i && n in done + Elements(level) {
      if i < |levels| {
        assert n in levels[i];
      }
    }
    forall i | 0 <= i < |more| ensures more[i] != [] && StrictlySorted(Below, more[i]) {
      if i < |levels| {
        assert more[i] == levels[i];
      }
    }
  }

  lemma NewMemberTight(g: Graph, levels: Levels, done: set<string>, level: seq<string>, n: string)
    requires LevellingSoFar(g, levels, done) && NextLevel(g, done, level)
    requires n in level && levels != []
    ensures Tight(g, levels + [level], n)
  {
    LevelsAfter(levels, done, level);
    assert Lagging(g, levels, n);
    var d :| Edge(g, n, d) && !(0 <= LevelOf(levels, d) < |levels| - 1);
    assert d in done;
    assert LevelOf(levels + [level], d) == |levels| - 1;
  }

  lemma OldMemberTight(g: Graph, levels: Levels, done: set<string>, level: seq<string>, n: string)
    requires LevellingSoFar(g, levels, done) && NextLevel(g, done, level)
    requires n in done && LevelOf(levels, n) > 0
    ensures Tight(g, levels + [level], n)
  {
    LevelsAfter(levels, done, level);
    assert Tight(g, levels, n);
    var d :| Edge(g, n, d) && LevelOf(levels, d) == LevelOf(levels, n) - 1;
    assert LevelOf(levels + [level], d) == LevelOf(levels, d);
  }

  lemma StillLagging(g: Graph, levels: Levels, done: set<string>, level: seq<string>, n: string)
    requires Partition(levels, done) && NextLevel(g, done, level)
    requires n in g && n !in done && n !in level
    ensures Lagging(g, levels + [level], n)
  {
    LevelsAfter(levels, done, level);
    var d :| d in g[n] && d !in done;
    assert Edge(g, n, d);
    assert LevelOf(levels, d) == -1;
  }

  lemma AddLevel(g: Graph, levels: Levels, done: set<string>, level: seq<string>)
    requires LevellingSoFar(g, levels, done) && NextLevel(g, done, level)
    ensures LevellingSoFar(g, levels + [level], done + Elements(level))
  {
    var more, placed := levels + [level], done + Elements(level);
    AddPartition(levels, done, level);
    LevelsAfter(levels, done, level);
    forall n, d | n in placed && Edge(g, n, d) ensures 0 <= LevelOf(more, d) < LevelOf(more, n) {
      if n in done {
        assert 0 <= LevelOf(levels, d) < LevelOf(levels, n);
      } else {
        assert d in done;
      }
    }
    forall n | n in placed && LevelOf(more, n) > 0 ensures Tight(g, more, n) {
      if n in done {
        OldMemberTight(g, levels, done, level, n);
      } else {
        NewMemberTight(g, levels, done, level, n);
      }
    }
    forall n | n in g && n !in placed ensures Lagging(g, more, n) {
      StillLagging(g, levels, done, level, n);
    }
  }

  /** When nothing is ready although packages remain, they depend on each other in a cycle. */
  lemma NothingReadyCyclic(g: Graph, done: set<string>, inDegree: map<string, int>)
    requires ClosedGraph(g) && done <= g.Keys && |done| < |g.Keys| && InDegrees(g, inDegree, done)
    requires forall n :: n in inDegree ==> inDegree[n] != 0
    ensures Cyclic(g)
  {
    var rest := g.Keys - done;
    assert rest + done == g.Keys;
    forall n | n in rest ensures exists d :: d in g[n] && d !in done {
      UnmetZero(g[n], done);
    }
    var next := map n | n in rest :: (var d :| d in g[n] && d !in done; d);
    forall n | n in rest ensures next[n] in rest && Edge(g, n, next[n]) {
      assert Edge(g, n, next[n]);
    }
    StuckSetCyclic(g, rest, next);
  }

  lemma ReadyIsNextLevel(g: Graph, done: set<string>, inDegree: map<string, int>, ready: seq<string>)
    requires InDegrees(g, inDegree, done) && NoDuplicates(ready) && ready != []
    requires forall n :: n in ready <==> n in inDegree && inDegree[n] == 0
    ensures NextLevel(g, done, SortNames(ready)) && NoDuplicates(SortNames(ready))
    ensures |SortNames(ready)| == |ready| == |Elements(SortNames(ready))|
  {
    var level := SortNames(ready);
    SortNamesSorted(ready);
    NoDuplicatesCardinality(level);
    forall n ensures n in level <==> n in g && n !in done && forall d :: d in g[n] ==> d in done {
      assert n in level <==> n in Elements(level);
      assert n in ready <==> n in Elements(ready);
      if n in g {
        UnmetZero(g[n], done);
      }
    }
  }

  lemma LevelCounts(g: Graph, done: set<string>, level: seq<string>)
    requires NextLevel(g, done, level) && |level| == |Elements(level)|
    ensures forall n :: n in level ==> n in g && n !in done
    ensures |done + Elements(level)| == |done| + |level|
  {
    assert done !! Elements(level);
  }

  /** Takes a finished level out of the graph. */
  method ReleaseLevel(g: Graph, dependents: map<string, seq<string>>, before: map<string, int>, level: seq<string>,
                      ghost done: set<string>)
    returns (inDegree: map<string, int>)
    requires Reverses(g, g.Keys, dependents) && InDegrees(g, before, done)
    requires NoDuplicates(level) && forall n :: n in level ==> n in g && n !in done
    ensures InDegrees(g, inDegree, done + Elements(level))
  {
    inDegree := before;
    assert done + Elements(level[..0]) == done;
    for i := 0 to |level|
      invariant InDegrees(g, inDegree, done + Elements(level[..i]))
    {
      var pkg := level[i];
      assert level[..i + 1] == level[..i] + [pkg];
      assert done + Elements(level[..i]) + {pkg} == done + Elements(level[..i + 1]);
      inDegree := Release(g, dependents, inDegree, pkg, done + Elements(level[..i]));
    }
    assert level[..|level|] == level;
  }

  /** Kahn's algorithm succeeds exactly on acyclic graphs, and then with the levelling of the graph. */
  method TopologicalLevels(dag: Dag) returns (r: Result<Levels, GraphError>)
    requires dag.Valid()
    ensures r.Ok? <==> !Cyclic(dag.edges)
    ensures r.Ok? ==> IsLevelling(dag.edges, r.value)
    ensures r.Err? ==> r.error == DependencyCycle
  {
    var g := dag.edges;
    var inDegree: map<string, int> := map n | n in dag.packages :: |g[n]|;
    forall n | n in g { UnmetAll(g[n]); }
    var dependents := ReverseEdges(g);
    var remaining: int := |dag.packages.Keys|;
    var levels: Levels := [];
    ghost var done: set<string> := {};
    while remaining > 0
      invariant InDegrees(g, inDegree, done) && LevellingSoFar(g, levels, done)
      invariant remaining == |g.Keys| - |done|
    {
      var ready := Ready(inDegree);
      if |ready| == 0 {
        NothingReadyCyclic(g, done, inDegree);
        return Err(DependencyCycle);
      }
      var level := SortNames(ready);
      ReadyIsNextLevel(g, done, inDegree, ready);
      LevelCounts(g, done, level);
      AddLevel(g, levels, done, level);
      levels := levels + [level];
      remaining := remaining - |level|;
      inDegree := ReleaseLevel(g, dependents, inDegree, level, done);
      done := done + Elements(level);
    }
    SubsetCardinality(done, g.Keys);
    LevellingAcyclic(g, levels);
    return Ok(levels);
  }

  /** The packages in deployment order. */
  method TopologicalSort(dag: Dag) returns (r: Result<seq<string>, GraphError>)
    requires dag.Valid()
    ensures r.Ok? <==> !Cyclic(dag.edges)
    ensures r.Ok? ==> NoDuplicates(r.value) && Elements(r.value) == dag.packages.Keys
    ensures r.Ok? ==> DependenciesFirst(dag.edges, r.value)
  {
    var levels := TopologicalLevels(dag);
    if levels.Err? {
      return Err(levels.error);
    }
    var sorted: seq<string> := [];
    for i := 0 to |levels.value|
      invariant sorted == Flatten(levels.value[..i])
    {
      assert levels.value[..i + 1] == levels.value[..i] + [levels.value[i]];
      FlattenSnoc(levels.value[..i], levels.value[i]);
      sorted := sorted + levels.value[i];
    }
    assert levels.value[..|levels.value|] == levels.value;
    FlattenPartition(levels.value, dag.edges.Keys);
    FlattenDependenciesFirst(dag.edges, levels.value, levels.value);
    return Ok(sorted);
  }

  /** Reading levels from the first to the last meets dependencies first. */
  lemma {:induction false} FlattenDependenciesFirst(g: Graph, levels: Levels, prefix: Levels)
    requires IsLevelling(g, levels) && prefix <= levels
    ensures DependenciesFirst(g, Flatten(prefix))
  {
    if prefix != [] {
      var init, last := prefix[..|prefix| - 1], prefix[|prefix| - 1];
      assert prefix == init + [last];
      FlattenDependenciesFirst(g, levels, init);
      FlattenSnoc(init, last);
      var before, order := Flatten(init), Flatten(prefix);
      forall i, d | 0 <= i < |order| && Edge(g, order[i], d) ensures d in order[..i] {
        if i < |before| {
          assert before[i] == order[i] && before[..i] == order[..i];
        } else {
          assert order[i] == last[i - |before|];
          assert order[i] in levels[|init|];
          EarlierMember(levels, init, d);
          assert before == order[..|before|] && order[..|before|] <= order[..i];
        }
      }
    }
  }

  lemma EarlierMember(levels: Levels, init: Levels, d: string)
    requires init <= levels && 0 <= LevelOf(levels, d) < |init|
    ensures d in Flatten(init)
  {
    assert d in init[LevelOf(levels, d)];
    FlattenMember(init, d);
  }

  /** The level of one package, or -1 when it is unknown or the levels cannot be computed. */
  method Level(dag: Dag, name: string) returns (level: int)
    requires dag.Valid()
    ensures level >= 0 <==> name in dag.packages && !Cyclic(dag.edges)
    ensures level >= 0 ==>
              && (exists p :: |p| == level + 1 && IsWalk(dag.edges, p) && p[0] == name)
              && (forall p :: IsWalk(dag.edges, p) && p[0] == name ==> |p| <= level + 1)
    ensures level >= -1
  {
    var r := TopologicalLevels(dag);
    if r.Err? {
      return -1;
    }
    var levels := r.value;
    for i := 0 to |levels|
      invariant forall k :: 0 <= k < i ==> name !in levels[k]
    {
      for j := 0 to |levels[i]|
        invariant name !in levels[i][..j]
      {
        if levels[i][j] == name {
          assert LevelOf(levels, name) == i;
          ghost var longest := LongestWalkExists(dag.edges, levels, name);
          forall p | IsWalk(dag.edges, p) && p[0] == name ensures |p| <= i + 1 {
            NoLongerWalk(dag.edges, levels, p);
          }
          return i;
        }
      }
      assert levels[i][..|levels[i]|] == levels[i];
    }
    assert LevelOf(levels, name) < 0;
    return -1;
  }
}

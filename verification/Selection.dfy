/** Restricting a deployment to a selection of packages, and when a selection is safe. */
module Selection {
  import opened Wrappers
  import opened Sequences
  import opened Ordering
  import opened Walks
  import opened Levels
  import opened DependencyGraph
  import opened DeploymentOrder

  datatype SelectionError = PackageNotInBundle(name: string)

  /** The members of a sequence that are requested, in order. */
  function Keep(names: seq<string>, requested: set<string>): seq<string> {
    if names == [] then []
    else
      var init := Keep(names[..|names| - 1], requested);
      if names[|names| - 1] in requested then init + [names[|names| - 1]] else init
  }

  lemma {:induction false} KeepMembers(names: seq<string>, requested: set<string>)
    ensures forall n :: n in Keep(names, requested) <==> n in names && n in requested
  {
    if names != [] {
      var init := names[..|names| - 1];
      KeepMembers(init, requested);
      assert names == init + [names[|names| - 1]];
    }
  }

  lemma {:induction false} KeepConcat(a: seq<string>, b: seq<string>, requested: set<string>)
    ensures Keep(a + b, requested) == Keep(a, requested) + Keep(b, requested)
  {
    if b == [] {
      assert a + b == a;
    } else {
      assert (a + b)[..|a + b| - 1] == a + b[..|b| - 1];
      KeepConcat(a, b[..|b| - 1], requested);
    }
  }

  lemma {:induction false} KeepAll(names: seq<string>, all: set<string>)
    requires forall n :: n in names ==> n in all
    ensures Keep(names, all) == names
  {
    if names != [] {
      KeepAll(names[..|names| - 1], all);
    }
  }

  lemma {:induction false} KeepSorted(names: seq<string>, requested: set<string>)
    requires StrictlySorted(Below, names)
    ensures StrictlySorted(Below, Keep(names, requested))
  {
    if names != [] {
      var init := names[..|names| - 1];
      KeepSorted(init, requested);
      KeepMembers(init, requested);
      var kept := Keep(init, requested);
      forall i | 0 <= i < |kept| ensures Below(kept[i], names[|names| - 1]) {
        assert kept[i] in init;
      }
    }
  }

  /** The kept part of every level, without the levels that became empty. */
  function Filtered(levels: Levels, requested: set<string>): Levels {
    if levels == [] then []
    else
      var init := Filtered(levels[..|levels| - 1], requested);
      var kept := Keep(levels[|levels| - 1], requested);
      if kept == [] then init else init + [kept]
  }

  method FilterLevels(levels: Levels, filterNames: seq<string>) returns (r: Result<Levels, SelectionError>)
    ensures filterNames == [] ==> r == Ok(levels)
    ensures filterNames != [] ==> (r.Ok? <==> forall n :: n in filterNames ==> n in Flatten(levels))
    ensures filterNames != [] && r.Ok? ==> r.value == Filtered(levels, Elements(filterNames))
    ensures r.Err? ==> r.error.name in filterNames && r.error.name !in Flatten(levels)
  {
    if |filterNames| == 0 {
      return Ok(levels);
    }
    var requested: set<string> := {};
    for i := 0 to |filterNames|
      invariant requested == Elements(filterNames[..i])
    {
      assert filterNames[..i + 1] == filterNames[..i] + [filterNames[i]];
      requested := requested + {filterNames[i]};
    }
    assert filterNames[..|filterNames|] == filterNames;
    var bundleNames: set<string> := {};
    for i := 0 to |levels|
      invariant bundleNames == Elements(Flatten(levels[..i]))
    {
      assert levels[..i + 1] == levels[..i] + [levels[i]];
      FlattenSnoc(levels[..i], levels[i]);
      for j := 0 to |levels[i]|
        invariant bundleNames == Elements(Flatten(levels[..i]) + levels[i][..j])
      {
        assert levels[i][..j + 1] == levels[i][..j] + [levels[i][j]];
        bundleNames := bundleNames + {levels[i][j]};
      }
      assert levels[i][..|levels[i]|] == levels[i];
    }
    assert levels[..|levels|] == levels;
    assert forall n :: n in filterNames <==> n in requested;
    assert forall n :: n in Flatten(levels) <==> n in bundleNames;
    var todo := requested;
    while todo != {}
      invariant todo <= requested && requested - todo <= bundleNames
      decreases |todo|
    {
      var name :| name in todo;
      todo := todo - {name};
      if name !in bundleNames {
        return Err(PackageNotInBundle(name));
      }
    }
    var filtered := FilterEach(levels, requested);
    return Ok(filtered);
  }

  method FilterEach(levels: Levels, requested: set<string>) returns (filtered: Levels)
    ensures filtered == Filtered(levels, requested)
  {
    filtered := [];
    for i := 0 to |levels|
      invariant filtered == Filtered(levels[..i], requested)
    {
      assert levels[..i + 1][..i] == levels[..i];
      var level := levels[i];
      var kept: seq<string> := [];
      for j := 0 to |level|
        invariant kept == Keep(level[..j], requested)
      {
        assert level[..j + 1][..j] == level[..j];
        if level[j] in requested {
          kept := kept + [level[j]];
        }
      }
      assert level[..|level|] == level;
      if |kept| > 0 {
        filtered := filtered + [kept];
      }
    }
    assert levels[..|levels|] == levels;
  }

  /** Filtering levels and filtering the flat order are the same. */
  lemma {:induction false} FilteredFlatten(levels: Levels, requested: set<string>)
    ensures Flatten(Filtered(levels, requested)) == Keep(Flatten(levels), requested)
  {
    if levels != [] {
      var init, last := levels[..|levels| - 1], levels[|levels| - 1];
      assert levels == init + [last];
      FilteredFlatten(init, requested);
      FlattenSnoc(init, last);
      KeepConcat(Flatten(init), last, requested);
      FlattenSnoc(Filtered(init, requested), Keep(last, requested));
    }
  }

  lemma {:induction false} FilteredLevelOf(levels: Levels, requested: set<string>, n: string)
    ensures LevelOf(Filtered(levels, requested), n) >= 0 <==> n in requested && LevelOf(levels, n) >= 0
  {
    if levels != [] {
      var init, last := levels[..|levels| - 1], levels[|levels| - 1];
      FilteredLevelOf(init, requested, n);
      KeepMembers(last, requested);
      if Keep(last, requested) != [] {
        LevelOfSnoc(Filtered(init, requested), Keep(last, requested), n);
      }
    }
  }

  /** Dropping packages and empty levels keeps the relative order of the packages that stay. */
  lemma {:induction false} FilteredKeepsOrder(levels: Levels, requested: set<string>, a: string, b: string)
    requires a in requested && b in requested
    requires 0 <= LevelOf(levels, a) < LevelOf(levels, b)
    ensures 0 <= LevelOf(Filtered(levels, requested), a) < LevelOf(Filtered(levels, requested), b)
  {
    var init, last := levels[..|levels| - 1], levels[|levels| - 1];
    FilteredLevelOf(init, requested, a);
    KeepMembers(last, requested);
    var f, kept := Filtered(init, requested), Keep(last, requested);
    if kept != [] {
      LevelOfSnoc(f, kept, a);
      LevelOfSnoc(f, kept, b);
    }
    if b !in last {
      FilteredKeepsOrder(init, requested, a, b);
    }
  }

  lemma {:induction false} FilteredPartition(levels: Levels, names: set<string>, requested: set<string>)
    requires Partition(levels, names)
    ensures Partition(Filtered(levels, requested), names * requested)
  {
    if levels != [] {
      var init, last := levels[..|levels| - 1], levels[|levels| - 1];
      assert levels == init + [last];
      var inner := set n | n in names && LevelOf(init, n) >= 0;
      forall i, n | 0 <= i < |init| && n in init[i] ensures LevelOf(init, n) == i && n in inner {
        assert n in levels[i];
        LevelOfSnoc(init, last, n);
      }
      forall i | 0 <= i < |init| ensures init[i] != [] && StrictlySorted(Below, init[i]) {
        assert init[i] == levels[i];
      }
      assert Partition(init, inner);
      FilteredPartition(init, inner, requested);
      var f, kept := Filtered(init, requested), Keep(last, requested);
      KeepMembers(last, requested);
      KeepSorted(last, requested);
      forall n ensures n in names <==> n in inner || n in last {
        LevelOfSnoc(init, last, n);
        assert n in last ==> n in levels[|init|];
      }
      forall n | n in last ensures n !in inner {
        assert n in levels[|init|];
        forall k | 0 <= k < |init| ensures n !in init[k] {
          assert init[k] == levels[k];
        }
      }
      if kept == [] {
        assert names * requested == inner * requested;
      } else {
        AddPartition(f, inner * requested, kept);
        assert names * requested == inner * requested + Elements(kept);
      }
    } else {
      assert forall n :: n in names ==> LevelOf(levels, n) >= 0;
      assert names == {};
    }
  }

  lemma {:induction false} FilteredAll(levels: Levels, requested: set<string>)
    requires forall i :: 0 <= i < |levels| ==> levels[i] != [] && forall n :: n in levels[i] ==> n in requested
    ensures Filtered(levels, requested) == levels
  {
    if levels != [] {
      FilteredAll(levels[..|levels| - 1], requested);
      KeepAll(levels[|levels| - 1], requested);
    }
  }

  // Safety of a selection.

  /** No selected package has a direct dependency outside the selection. */
  ghost predicate DeploySafe(g: Graph, selected: set<string>) {
    forall n, d :: n in selected && Edge(g, n, d) ==> d in selected
  }

  /** No package that stays has a direct dependency among the removed ones. */
  ghost predicate RemovalSafe(g: Graph, removed: set<string>) {
    forall n, d :: n !in removed && Edge(g, n, d) ==> d !in removed
  }

  /** A selection is deploy-safe exactly when its complement is removal-safe. */
  lemma SafetyDuality(g: Graph, selected: set<string>)
    requires ClosedGraph(g)
    ensures DeploySafe(g, selected) <==> RemovalSafe(g, g.Keys - selected)
  {
    if RemovalSafe(g, g.Keys - selected) {
      forall n, d | n in selected && Edge(g, n, d) ensures d in selected {
        assert n !in g.Keys - selected;
        assert d !in g.Keys - selected;
      }
    }
  }

  /** Checking direct dependencies is enough: a deploy-safe selection holds every transitive dependency. */
  lemma DeploySafeIsTransitive(g: Graph, selected: set<string>)
    ensures DeploySafe(g, selected) <==> forall n, d :: n in selected && Reaches(g, n, d) ==> d in selected
  {
    if DeploySafe(g, selected) {
      forall n, d | n in selected && Reaches(g, n, d) ensures d in selected {
        var p :| WalkBetween(g, n, d, p);
        ClosedContainsReachable(g, selected, p);
        assert p[|p| - 1] in p;
      }
    } else {
      var n, d :| n in selected && Edge(g, n, d) && d !in selected;
      ReachesSelf(g, n);
      ReachesStep(g, n, n, d);
    }
  }

  /** Likewise a removal-safe selection holds every transitive dependent of its members. */
  lemma RemovalSafeIsTransitive(g: Graph, removed: set<string>, n: string, d: string)
    requires RemovalSafe(g, removed) && Reaches(g, n, d) && d in removed
    ensures n in removed
  {
    var p :| WalkBetween(g, n, d, p);
    RemovedWalk(g, removed, p);
  }

  lemma {:induction false} RemovedWalk(g: Graph, removed: set<string>, p: seq<string>)
    requires RemovalSafe(g, removed) && IsWalk(g, p) && p[|p| - 1] in removed
    ensures p[0] in removed
    decreases |p|
  {
    if |p| > 1 {
      var last := |p| - 1;
      assert Edge(g, p[last - 1], p[last]);
      assert IsWalk(g, p[..last]);
      RemovedWalk(g, removed, p[..last]);
    }
  }

  /** The occurrences of dependencies outside the selection, in order. */
  function Outside(deps: seq<string>, selected: set<string>): seq<string> {
    if deps == [] then []
    else
      var init := Outside(deps[..|deps| - 1], selected);
      if deps[|deps| - 1] !in selected then init + [deps[|deps| - 1]] else init
  }

  lemma {:induction false} OutsideMembers(deps: seq<string>, selected: set<string>)
    ensures forall d :: multiset(Outside(deps, selected))[d] == if d in selected then 0 else multiset(deps)[d]
    ensures Outside(deps, selected) == [] <==> forall d :: d in deps ==> d in selected
  {
    if deps != [] {
      var init := deps[..|deps| - 1];
      OutsideMembers(init, selected);
      assert deps == init + [deps[|deps| - 1]];
    }
  }

  /** Every selected package with a dependency outside the selection, and those dependencies. */
  ghost predicate ReportsMissing(g: Graph, selected: set<string>, names: set<string>, missing: map<string, seq<string>>)
  {
    && (forall n :: n in missing <==> n in names && n in selected && n in g && Outside(g[n], selected) != [])
    && (forall n :: n in missing ==>
          Ordered(Below, missing[n]) && multiset(missing[n]) == multiset(Outside(g[n], selected)))
  }

  lemma MissingOfDeploySafe(g: Graph, selected: set<string>, missing: map<string, seq<string>>)
    requires ReportsMissing(g, selected, g.Keys, missing)
    ensures missing == map[] <==> DeploySafe(g, selected)
  {
    forall n | n in g { OutsideMembers(g[n], selected); }
    if DeploySafe(g, selected) {
      forall n | n in g && n in selected ensures Outside(g[n], selected) == [] {
        assert forall d :: d in g[n] ==> Edge(g, n, d);
      }
      assert missing.Keys == {};
    }
    if missing == map[] {
      forall n, d | n in selected && Edge(g, n, d) ensures d in selected {
        assert n !in missing;
      }
    }
  }

  /** The direct dependencies that a selection leaves out, by selected package. */
  method MissingDependencies(dag: Dag, selected: seq<string>) returns (missing: map<string, seq<string>>)
    requires dag.Valid()
    ensures ReportsMissing(dag.edges, Elements(selected), dag.edges.Keys, missing)
    ensures missing == map[] <==> DeploySafe(dag.edges, Elements(selected))
  {
    var g := dag.edges;
    var selSet := Elements(selected);
    missing := map[];
    var todo := g.Keys;
    while todo != {}
      invariant todo <= g.Keys
      invariant ReportsMissing(g, selSet, g.Keys - todo, missing)
      decreases |todo|
    {
      var name :| name in todo;
      todo := todo - {name};
      if name !in selSet {
        continue;
      }
      var deps := g[name];
      var found: seq<string> := [];
      for i := 0 to |deps|
        invariant found == Outside(deps[..i], selSet)
      {
        assert deps[..i + 1][..i] == deps[..i];
        if deps[i] !in selSet {
          found := found + [deps[i]];
        }
      }
      assert deps[..|deps|] == deps;
      if found != [] {
        SortNamesOrdered(found);
        missing := missing[name := SortNames(found)];
      }
    }
    MissingOfDeploySafe(g, selSet, missing);
  }

  /** Under every removed package, the staying packages that depend on it, once per dependency occurrence. */
  ghost predicate ReportsBlockers(g: Graph, removed: set<string>, names: set<string>,
                                  blockers: map<string, seq<string>>)
  {
    && (forall d, n :: Listed(blockers, d, n) ==
          if n in names && n in g && n !in removed && d in removed then multiset(g[n])[d] else 0)
    && (forall d :: d in blockers ==> blockers[d] != [])
  }

  lemma BlockersOfRemovalSafe(g: Graph, removed: set<string>, blockers: map<string, seq<string>>)
    requires ReportsBlockers(g, removed, g.Keys, blockers)
    ensures blockers == map[] <==> RemovalSafe(g, removed)
  {
    if RemovalSafe(g, removed) {
      forall d ensures d !in blockers {
        if d in blockers {
          var n := blockers[d][0];
          assert Listed(blockers, d, n) > 0;
          assert Edge(g, n, d);
        }
      }
      assert blockers.Keys == {};
    }
    if blockers == map[] {
      forall n, d | n !in removed && Edge(g, n, d) ensures d !in removed {
        assert Listed(blockers, d, n) == 0;
      }
    }
  }

  /** One package's contribution to the blockers. */
  method AddBlocker(before: map<string, seq<string>>, name: string, deps: seq<string>, removed: set<string>)
    returns (blockers: map<string, seq<string>>)
    requires forall d :: d in before ==> before[d] != []
    ensures forall d, n :: Listed(blockers, d, n) ==
                           Listed(before, d, n) + if n == name && d in removed then multiset(deps)[d] else 0
    ensures forall d :: d in blockers ==> blockers[d] != []
  {
    blockers := before;
    for i := 0 to |deps|
      invariant forall d, n :: Listed(blockers, d, n) ==
                               Listed(before, d, n) + if n == name && d in removed then multiset(deps[..i])[d] else 0
      invariant forall d :: d in blockers ==> blockers[d] != []
    {
      var dep := deps[i];
      assert deps[..i + 1] == deps[..i] + [dep];
      if dep in removed {
        ghost var m := blockers;
        blockers := blockers[dep := Get(blockers, dep) + [name]];
        forall d, n ensures Listed(blockers, d, n) ==
                            Listed(before, d, n) + if n == name && d in removed then multiset(deps[..i + 1])[d] else 0 {
          AppendListed(m, dep, name, d, n);
        }
      }
    }
    assert deps[..|deps|] == deps;
  }

  /** Sorts every list in place; nothing else changes. */
  method SortBlockers(unsorted: map<string, seq<string>>) returns (blockers: map<string, seq<string>>)
    requires forall d :: d in unsorted ==> unsorted[d] != []
    ensures forall d, n :: Listed(blockers, d, n) == Listed(unsorted, d, n)
    ensures forall d :: d in blockers ==> blockers[d] != [] && Ordered(Below, blockers[d])
  {
    blockers := unsorted;
    var keys := blockers.Keys;
    while keys != {}
      invariant blockers.Keys == unsorted.Keys && keys <= blockers.Keys
      invariant forall d :: d in blockers ==>
          multiset(blockers[d]) == multiset(unsorted[d]) && |blockers[d]| == |unsorted[d]|
      invariant forall d :: d in blockers && d !in keys ==> Ordered(Below, blockers[d])
      decreases |keys|
    {
      var k :| k in keys;
      keys := keys - {k};
      SortNamesOrdered(blockers[k]);
      blockers := blockers[k := SortNames(blockers[k])];
    }
  }

  /** The packages that would keep depending on a removed package, by removed package. */
  method DependentBlockers(dag: Dag, removeNames: seq<string>) returns (blockers: map<string, seq<string>>)
    requires dag.Valid()
    ensures ReportsBlockers(dag.edges, Elements(removeNames), dag.edges.Keys, blockers)
    ensures forall d :: d in blockers ==> Ordered(Below, blockers[d])
    ensures blockers == map[] <==> RemovalSafe(dag.edges, Elements(removeNames))
  {
    var g := dag.edges;
    var removeSet := Elements(removeNames);
    blockers := map[];
    var todo := g.Keys;
    while todo != {}
      invariant todo <= g.Keys
      invariant ReportsBlockers(g, removeSet, g.Keys - todo, blockers)
      decreases |todo|
    {
      var name :| name in todo;
      todo := todo - {name};
      if name in removeSet {
        continue;
      }
      blockers := AddBlocker(blockers, name, g[name], removeSet);
    }
    blockers := SortBlockers(blockers);
    BlockersOfRemovalSafe(g, removeSet, blockers);
  }
}

/** Sequential teardown in reverse level order, internal/zarf/remove.go. */
module Removal {
  import opened Wrappers
  import opened Walks
  import opened Levels
  import opened Selection

  datatype RemoveError =
    | ConnectCluster
    | LoadPackage
    | ReadDeployedPackages
    | PackageNotDeployed
    | RemoveFailed

  datatype Status = Removed | Skipped

  datatype PackageResult = PackageResult(name: string, status: Status)

  /** What the cluster and the package sources answer; bundle packages are identified by name. */
  datatype Environment = Environment(
    connects: bool,
    deployed: Option<seq<(string, string)>>,  // metadata name and namespace override of every deployed package
    metadataName: map<string, string>,        // the metadata name found at a package's source, when it loads
    namespaceOverride: map<string, string>,
    removable: set<string>)
  {
    function Namespace(name: string): string {
      if name in namespaceOverride then namespaceOverride[name] else ""
    }
  }

  function DeployedKey(zarfName: string, namespaceOverride: string): string {
    zarfName + "/" + namespaceOverride
  }

  /** How removing one package turns out; None is success. */
  function Outcome(env: Environment, name: string): Option<RemoveError> {
    if !env.connects then Some(ConnectCluster)
    else if name !in env.metadataName then Some(LoadPackage)
    else if env.deployed.None? then Some(ReadDeployedPackages)
    else if !IsDeployed(env, name) then Some(PackageNotDeployed)
    else if name in env.removable then None
    else Some(RemoveFailed)
  }

  predicate IsDeployed(env: Environment, name: string) {
    && env.deployed.Some? && name in env.metadataName
    && exists i :: 0 <= i < |env.deployed.value| &&
         DeployedKey(env.deployed.value[i].0, env.deployed.value[i].1)
         == DeployedKey(env.metadataName[name], env.Namespace(name))
  }

  // What the keys of deployed packages tell apart.

  /** Keys of names without a slash are equal only for equal names and equal namespaces. */
  lemma {:induction false} KeysTellApart(a: string, ns: string, b: string, ms: string)
    requires '/' !in a && '/' !in b
    ensures DeployedKey(a, ns) == DeployedKey(b, ms) <==> a == b && ns == ms
    decreases |a|
  {
    var x, y := DeployedKey(a, ns), DeployedKey(b, ms);
    if x == y {
      assert x[|a|] == '/' && y[|b|] == '/';
      assert |a| == |b|;
      assert x[..|a|] == a && y[..|b|] == b;
      assert x[|a| + 1..] == ns && y[|b| + 1..] == ms;
    }
  }

  lemma {:induction false} FirstSlash(a: string) returns (k: nat)
    requires '/' in a
    ensures k < |a| && a[k] == '/' && '/' !in a[..k]
  {
    if a[0] == '/' {
      k := 0;
    } else {
      k := FirstSlash(a[1..]);
      k := k + 1;
      assert a[..k] == [a[0]] + a[1..][..k - 1];
    }
  }

  /** A name with a slash in it shares each of its keys with another package: the part before the slash, in a namespace
      that starts with the rest. So names without a slash are exactly those whose keys are theirs alone. */
  lemma SlashesAreAmbiguous(a: string)
    ensures '/' !in a <==>
            forall ns, b, ms :: '/' !in b && DeployedKey(a, ns) == DeployedKey(b, ms) ==> a == b && ns == ms
  {
    if '/' in a {
      var k := FirstSlash(a);
      var b, ms := a[..k], a[k + 1..] + "/" + "";
      assert a == b + "/" + a[k + 1..];
      assert DeployedKey(a, "") == DeployedKey(b, ms);
      assert |b| < |a|;
    } else {
      forall ns, b, ms | '/' !in b && DeployedKey(a, ns) == DeployedKey(b, ms) ensures a == b && ns == ms {
        KeysTellApart(a, ns, b, ms);
      }
    }
  }

  /** No metadata name has a slash in it, as no resource of a cluster has one in its name. */
  ghost predicate PlainNames(env: Environment) {
    && (forall n :: n in env.metadataName ==> '/' !in env.metadataName[n])
    && (env.deployed.Some? ==> forall i :: 0 <= i < |env.deployed.value| ==> '/' !in env.deployed.value[i].0)
  }

  /** The metadata name and the namespace override under which the cluster would know a package. */
  function Identity(env: Environment, name: string): (string, string)
    requires name in env.metadataName
  {
    (env.metadataName[name], if name in env.namespaceOverride then env.namespaceOverride[name] else "")
  }

  lemma DeployedByIdentity(env: Environment, name: string)
    requires PlainNames(env)
    ensures IsDeployed(env, name) <==>
            env.deployed.Some? && name in env.metadataName && Identity(env, name) in env.deployed.value
  {
    if env.deployed.Some? && name in env.metadataName {
      forall i | 0 <= i < |env.deployed.value|
        ensures DeployedKey(env.deployed.value[i].0, env.deployed.value[i].1)
             == DeployedKey(env.metadataName[name], env.Namespace(name))
           <==> env.deployed.value[i] == Identity(env, name) {
        KeysTellApart(env.deployed.value[i].0, env.deployed.value[i].1, env.metadataName[name], env.Namespace(name));
      }
    }
  }

  /** Once the cluster has answered, a package is skipped exactly when its metadata name is not deployed in its
      namespace, whatever else of that name is deployed elsewhere, and only a package deployed there can be removed. */
  lemma OutcomeByIdentity(env: Environment, name: string)
    requires PlainNames(env)
    ensures Outcome(env, name) == Some(PackageNotDeployed) <==>
            && env.connects && name in env.metadataName && env.deployed.Some?
            && Identity(env, name) !in env.deployed.value
    ensures Outcome(env, name) == None <==>
            && env.connects && name in env.metadataName && env.deployed.Some?
            && Identity(env, name) in env.deployed.value && name in env.removable
  {
    DeployedByIdentity(env, name);
  }

  lemma ReportsByIdentity(env: Environment, order: seq<string>, results: seq<PackageResult>)
    requires PlainNames(env) && ReportsOn(env, order, results)
    ensures StatusesByIdentity(env, results)
  {
    forall i | 0 <= i < |results| ensures StatusByIdentity(env, results[i]) {
      assert Reports(env, order[i], results[i]);
      OutcomeByIdentity(env, results[i].name);
    }
  }

  /** A package that was looked up is reported as skipped when it is not deployed in its namespace, and as removed when
      it is and could be removed. */
  ghost predicate StatusByIdentity(env: Environment, result: PackageResult) {
    && env.connects && result.name in env.metadataName && env.deployed.Some?
    && (result.status == Skipped <==> Identity(env, result.name) !in env.deployed.value)
    && (result.status == Removed <==> Identity(env, result.name) in env.deployed.value && result.name in env.removable)
  }

  ghost predicate StatusesByIdentity(env: Environment, results: seq<PackageResult>) {
    forall i :: 0 <= i < |results| ==> StatusByIdentity(env, results[i])
  }

  /** The order in which packages are handled: levels backwards, each level forwards. */
  function ReverseOrder(levels: Levels): seq<string> {
    if levels == [] then [] else levels[|levels| - 1] + ReverseOrder(levels[..|levels| - 1])
  }

  lemma ReverseOrderLength(levels: Levels, i: nat)
    requires i < |levels|
    ensures |ReverseOrder(levels[..i + 1])| == |levels[i]| + |ReverseOrder(levels[..i])|
  {
    assert levels[..i + 1][..i] == levels[..i];
  }

  /** Where the packages of a level stand in the reverse order: behind those of all levels above. */
  lemma {:induction false} ReverseOrderAt(levels: Levels, i: nat, j: nat)
    requires i < |levels| && j < |levels[i]|
    ensures var base := |ReverseOrder(levels)| - |ReverseOrder(levels[..i + 1])|;
            0 <= base && base + j < |ReverseOrder(levels)| && ReverseOrder(levels)[base + j] == levels[i][j]
  {
    var last := |levels| - 1;
    if i == last {
      assert levels[..i + 1] == levels;
    } else {
      var init := levels[..last];
      ReverseOrderAt(init, i, j);
      assert init[..i + 1] == levels[..i + 1];
      var base := |ReverseOrder(init)| - |ReverseOrder(init[..i + 1])|;
      assert ReverseOrder(levels)[|levels[last]| + base + j] == ReverseOrder(init)[base + j];
    }
  }

  class Remover {
    const env: Environment
    /** The cached cluster client. */
    var connected: bool
    /** The cached keys of the deployed packages. */
    var deployed: set<string>
    var deployedLoaded: bool
    /** How often a connection was tried, and how often the cluster was asked for its packages. */
    ghost var attempts: nat
    ghost var queries: nat

    ghost predicate Valid()
      reads this
    {
      && (connected ==> env.connects)
      && (deployedLoaded ==>
            && env.deployed.Some?
            && deployed == set i | 0 <= i < |env.deployed.value| ::
                             DeployedKey(env.deployed.value[i].0, env.deployed.value[i].1))
    }

    constructor (env: Environment)
      ensures Valid() && this.env == env && queries == 0 && attempts == 0 && !connected
    {
      this.env := env;
      connected, deployed, deployedLoaded, queries, attempts := false, {}, false, 0, 0;
    }

    /** The cluster client, connected on the first successful call and cached. */
    method GetCluster() returns (ok: bool)
      requires Valid()
      modifies this`connected, this`attempts
      ensures Valid() && ok == env.connects && connected == ok
      ensures attempts == old(attempts) + if old(connected) then 0 else 1
    {
      if connected {
        return true;
      }
      attempts := attempts + 1;
      if !env.connects {
        return false;
      }
      connected := true;
      return true;
    }

    /** The deployed packages, fetched on the first successful call and cached. */
    method DeployedPackages() returns (r: Result<set<string>, RemoveError>)
      requires Valid() && env.connects
      modifies this
      ensures Valid()
      ensures r.Ok? <==> env.deployed.Some?
      ensures r.Ok? ==> deployedLoaded && r.value == deployed
      ensures r.Err? ==> r.error == ReadDeployedPackages && !deployedLoaded
      ensures queries == old(queries) + if old(deployedLoaded) then 0 else 1
    {
      if deployedLoaded {
        return Ok(deployed);
      }
      var ok := GetCluster();
      queries := queries + 1;
      if env.deployed.None? {
        return Err(ReadDeployedPackages);
      }
      var keys: set<string> := {};
      var listed := env.deployed.value;
      for i := 0 to |listed|
        invariant keys == set k | 0 <= k < i :: DeployedKey(listed[k].0, listed[k].1)
      {
        keys := keys + {DeployedKey(listed[i].0, listed[i].1)};
      }
      deployed, deployedLoaded := keys, true;
      return Ok(keys);
    }

    method RemovePackage(name: string) returns (error: Option<RemoveError>)
      requires Valid()
      modifies this
      ensures Valid()
      ensures error == Outcome(env, name)
      ensures PlainNames(env) && env.connects && name in env.metadataName && env.deployed.Some? ==>
        error == if Identity(env, name) !in env.deployed.value then Some(PackageNotDeployed)
                 else if name in env.removable then None else Some(RemoveFailed)
      ensures error.None? || error.value == PackageNotDeployed ==> deployedLoaded
      ensures queries == old(queries) || (!old(deployedLoaded) && queries == old(queries) + 1)
    {
      if PlainNames(env) {
        DeployedByIdentity(env, name);
      }
      var ok := GetCluster();
      if !ok {
        return Some(ConnectCluster);
      }
      if name !in env.metadataName {
        return Some(LoadPackage);
      }
      var packages := DeployedPackages();
      if packages.Err? {
        return Some(packages.error);
      }
      if DeployedKey(env.metadataName[name], env.Namespace(name)) !in packages.value {
        return Some(PackageNotDeployed);
      }
      if name !in env.removable {
        return Some(RemoveFailed);
      }
      return None;
    }

    /** The results are the outcomes of a prefix of the reverse order, cut at the first real failure. */
    method RemovePackages(levels: Levels) returns (results: seq<PackageResult>, error: Option<RemoveError>)
      requires Valid()
      modifies this
      ensures Valid()
      ensures |results| <= |ReverseOrder(levels)|
      ensures ReportsOn(env, ReverseOrder(levels), results)
      ensures PlainNames(env) ==> StatusesByIdentity(env, results)
      ensures error.None? ==> |results| == |ReverseOrder(levels)|
      ensures error.Some? ==> |results| < |ReverseOrder(levels)| && error.value != PackageNotDeployed
                              && Outcome(env, ReverseOrder(levels)[|results|]) == error
      ensures queries <= old(queries) + 1
    {
      ghost var order := ReverseOrder(levels);
      results := [];
      assert levels[..|levels|] == levels;
      var i := |levels| - 1;
      while i >= 0
        invariant -1 <= i < |levels| && Valid()
        invariant |results| + |ReverseOrder(levels[..i + 1])| == |order| && ReportsOn(env, order, results)
        invariant queries == old(queries) || (deployedLoaded && queries == old(queries) + 1)
      {
        var level := levels[i];
        ghost var before := |results|;
        for j := 0 to |level|
          invariant Valid() && |results| == before + j && ReportsOn(env, order, results)
          invariant queries == old(queries) || (deployedLoaded && queries == old(queries) + 1)
        {
          var pkg := level[j];
          ReverseOrderAt(levels, i, j);
          var outcome := RemovePackage(pkg);
          ReportsOneMore(env, order, results);
          if outcome.Some? {
            if outcome.value == PackageNotDeployed {
              results := results + [PackageResult(pkg, Skipped)];
              continue;
            }
            if PlainNames(env) {
              ReportsByIdentity(env, order, results);
            }
            return results, outcome;
          }
          results := results + [PackageResult(pkg, Removed)];
        }
        ReverseOrderLength(levels, i);
        i := i - 1;
      }
      assert levels[..0] == [];
      if PlainNames(env) {
        ReportsByIdentity(env, order, results);
      }
      return results, None;
    }
  }

  /** The results report on a prefix of the order. */
  ghost predicate ReportsOn(env: Environment, order: seq<string>, results: seq<PackageResult>) {
    |results| <= |order| && forall i :: 0 <= i < |results| ==> Reports(env, order[i], results[i])
  }

  lemma ReportsOneMore(env: Environment, order: seq<string>, results: seq<PackageResult>)
    requires ReportsOn(env, order, results) && |results| < |order|
    ensures var name := order[|results|];
            && (Outcome(env, name) == None ==> ReportsOn(env, order, results + [PackageResult(name, Removed)]))
            && (Outcome(env, name) == Some(PackageNotDeployed) ==>
                  ReportsOn(env, order, results + [PackageResult(name, Skipped)]))
  {
  }

  /** A result line: removed when the removal succeeded, skipped exactly when the package was not deployed. */
  ghost predicate Reports(env: Environment, name: string, result: PackageResult) {
    && result.name == name
    && (result.status == Removed <==> Outcome(env, name) == None)
    && (result.status == Skipped <==> Outcome(env, name) == Some(PackageNotDeployed))
  }

  // The order of removal.

  /** What sits on a higher level is handled before. */
  lemma {:induction false} HigherLevelsFirst(levels: Levels, a: string, b: string, i: nat)
    requires 0 <= LevelOf(levels, b) < LevelOf(levels, a)
    requires forall k, n :: 0 <= k < |levels| && n in levels[k] ==> LevelOf(levels, n) == k
    requires i < |ReverseOrder(levels)| && ReverseOrder(levels)[i] == b
    ensures a in ReverseOrder(levels)[..i]
  {
    var init, last := levels[..|levels| - 1], levels[|levels| - 1];
    assert levels == init + [last];
    var order, rest := ReverseOrder(levels), ReverseOrder(init);
    assert i >= |last| by {
      assert b !in levels[|init|];
      assert forall k :: 0 <= k < |last| ==> order[k] == last[k];
    }
    if a in last {
      var k :| 0 <= k < |last| && last[k] == a;
      assert order[..i][k] == a;
    } else {
      LevelOfSnoc(init, last, a);
      LevelOfSnoc(init, last, b);
      forall k, n | 0 <= k < |init| && n in init[k] ensures LevelOf(init, n) == k {
        assert n in levels[k];
        LevelOfSnoc(init, last, n);
      }
      HigherLevelsFirst(init, a, b, i - |last|);
      assert order[..i] == last + rest[..i - |last|];
    }
  }

  /** Under a removal-safe selection, every transitive dependent of a package is handled before the package itself. */
  lemma DependentsRemovedFirst(g: Graph, full: Levels, removed: set<string>, i: nat, n: string)
    requires IsLevelling(g, full) && RemovalSafe(g, removed)
    requires i < |ReverseOrder(Filtered(full, removed))|
    requires Depends(g, n, ReverseOrder(Filtered(full, removed))[i])
    ensures n in ReverseOrder(Filtered(full, removed))[..i]
  {
    var levels := Filtered(full, removed);
    var d := ReverseOrder(levels)[i];
    FilteredPartition(full, g.Keys, removed);
    ReverseOrderMembers(levels);
    assert d in ReverseOrder(levels);
    FilteredLevelOf(full, removed, d);
    assert Reaches(g, n, d);
    RemovalSafeIsTransitive(g, removed, n, d);
    DependencyIsLower(g, full, n, d);
    FilteredKeepsOrder(full, removed, d, n);
    HigherLevelsFirst(levels, n, d, i);
  }

  lemma {:induction false} ReverseOrderMembers(levels: Levels)
    ensures forall n :: n in ReverseOrder(levels) <==> LevelOf(levels, n) >= 0
  {
    if levels != [] {
      ReverseOrderMembers(levels[..|levels| - 1]);
    }
  }
}

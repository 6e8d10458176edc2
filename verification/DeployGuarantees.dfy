/** What every run of the deployment scheduler guarantees. */
module DeployGuarantees {
  import opened Sequences
  import opened Ordering
  import opened Walks
  import opened Levels
  import opened DependencyGraph
  import opened Selection
  import opened DeployScheduler

  lemma PartitionDistinct(levels: Levels, names: set<string>)
    requires Partition(levels, names)
    ensures Distinct(levels)
  {
    forall i | 0 <= i < |levels| ensures NoDuplicates(levels[i]) {
      SortedNamesDistinct(levels[i]);
    }
  }

  // The level barrier.

  /** DeployPackage is called only when every package of every lower level has been recorded as deployed. */
  lemma BeginAfterLowerLevels(c: Config, steps: seq<Step>, n: string)
    requires Distinct(c.levels) && Legal(c, steps + [Begin(n)])
    ensures 0 <= LevelOf(c.levels, n)
    ensures forall d :: 0 <= LevelOf(c.levels, d) < LevelOf(c.levels, n) ==>
              Legal(c, steps) && d in After(c, steps).deployed
  {
    var all := steps + [Begin(n)];
    assert all[..|all| - 1] == steps;
    RunInv(c, steps);
    BodiesAreCurrent(c, After(c, steps), n);
  }

  /** A package that has begun and is not recorded yet belongs to the current level, so the lower levels are done. */
  lemma RunningAboveLowerLevels(c: Config, steps: seq<Step>, n: string)
    requires Distinct(c.levels) && Legal(c, steps) && n in After(c, steps).begun
    ensures n !in After(c, steps).deployed ==> LevelOf(c.levels, n) == After(c, steps).level
    ensures forall d :: 0 <= LevelOf(c.levels, d) < LevelOf(c.levels, n) ==> d in After(c, steps).deployed
  {
    RunInv(c, steps);
    var s := After(c, steps);
    if n in s.bodies {
      BodiesAreCurrent(c, s, n);
    }
    forall d | 0 <= LevelOf(c.levels, d) < LevelOf(c.levels, n) ensures d in s.deployed {
      assert Earlier(c, s, d);
    }
  }

  /** The levels the scheduler runs after a safe selection. */
  ghost predicate SafeSelection(g: Graph, full: Levels, selected: set<string>) {
    ClosedGraph(g) && IsLevelling(g, full) && selected <= g.Keys && DeploySafe(g, selected)
  }

  /** With a deploy-safe selection, every transitive dependency of a package whose deployment has begun is already
      deployed, although unselected packages and emptied levels were dropped. */
  lemma DependenciesDeployedFirst(g: Graph, full: Levels, selected: set<string>, limit: nat, steps: seq<Step>,
                                  n: string, d: string)
    requires Legal(Config(Filtered(full, selected), limit), steps)
    ensures SafeSelection(g, full, selected) && Depends(g, n, d)
            && n in After(Config(Filtered(full, selected), limit), steps).begun
            ==> d in After(Config(Filtered(full, selected), limit), steps).deployed
  {
    var c := Config(Filtered(full, selected), limit);
    if SafeSelection(g, full, selected) && Depends(g, n, d) && n in After(c, steps).begun {
      SafeRunDependencies(g, full, selected, c, steps, n, d);
    }
  }

  lemma SafeRunDependencies(g: Graph, full: Levels, selected: set<string>, c: Config, steps: seq<Step>, n: string,
                            d: string)
    requires SafeSelection(g, full, selected) && c.levels == Filtered(full, selected)
    requires Legal(c, steps) && n in After(c, steps).begun && Depends(g, n, d)
    ensures d in After(c, steps).deployed
  {
    FilteredPartition(full, g.Keys, selected);
    PartitionDistinct(c.levels, g.Keys * selected);
    var s := After(c, steps);
    RunInv(c, steps);
    assert n in selected by {
      if n in s.bodies {
        BodiesAreCurrent(c, s, n);
      }
      FilteredLevelOf(full, selected, n);
    }
    DependencyIsLower(g, full, n, d);
    DeploySafeIsTransitive(g, selected);
    assert Reaches(g, n, d);
    FilteredKeepsOrder(full, selected, d, n);
    RunningAboveLowerLevels(c, steps, n);
  }

  /** Without a selection the whole bundle runs, and the guarantee above applies to it. */
  lemma WholeBundleIsSafe(g: Graph, full: Levels)
    requires ClosedGraph(g) && IsLevelling(g, full)
    ensures SafeSelection(g, full, g.Keys) && Filtered(full, g.Keys) == full
  {
    FilteredAll(full, g.Keys);
  }

  // Bounded concurrency and accounting.

  ghost function Running(s: State): set<string> {
    set n | n in s.bodies && s.bodies[n] == Deploying
  }

  /** Never more than limit deployments run at once. */
  lemma ConcurrencyBounded(c: Config, steps: seq<Step>)
    requires Distinct(c.levels) && Legal(c, steps)
    ensures |Running(After(c, steps))| <= c.limit
  {
    RunInv(c, steps);
    SubsetCardinality(Running(After(c, steps)), Holders(After(c, steps)));
  }

  /** Between the call of DeployPackage and the record of what it returned. */
  predicate UnderWay(s: State, n: string) {
    InPhase(s, n, Deploying) || InPhase(s, n, Succeeded) || InPhase(s, n, Failed)
  }

  /** No package is deployed twice, and the accumulator holds exactly one error for every package that has begun, is not
      under way any more and is not deployed, and none for a skipped one. */
  lemma BegunOnce(c: Config, steps: seq<Step>)
    requires Distinct(c.levels) && Legal(c, steps)
    ensures NoDuplicates(After(c, steps).begun) && NoDuplicates(After(c, steps).levelErrs)
    ensures forall n :: n in After(c, steps).levelErrs <==>
              n in After(c, steps).begun && n !in After(c, steps).deployed && !UnderWay(After(c, steps), n)
    ensures forall n :: n in After(c, steps).deployed ==> n in After(c, steps).begun
  {
    RunInv(c, steps);
    var s := After(c, steps);
    forall n | n in s.bodies ensures BodyAgrees(s, n) {
    }
  }

  /** Once a level is over, each of its packages is exactly one of deployed, failed and never begun. */
  lemma FinishedLevelAccounted(c: Config, steps: seq<Step>, n: string)
    requires Distinct(c.levels) && Legal(c, steps)
    requires After(c, steps).control == LevelErrors ||
             (After(c, steps).control.Done? && After(c, steps).control.outcome.Failures?)
    requires n in CurrentLevel(c, After(c, steps))
    ensures var s := After(c, steps);
            || (n in s.deployed && n in s.begun && n !in s.levelErrs)
            || (n !in s.deployed && n in s.begun && n in s.levelErrs)
            || (n !in s.deployed && n !in s.begun && n !in s.levelErrs)
  {
    RunInv(c, steps);
    var s := After(c, steps);
    assert n in c.levels[s.level];
    if n in s.bodies {
      assert BodyAgrees(s, n);
    }
  }

  /** Run ends in a joined error exactly listing failed packages, in the parent's error only when the parent was
      cancelled, and otherwise in success; no package of a level after the last one started has begun. */
  lemma OutcomeExplained(c: Config, steps: seq<Step>)
    requires Distinct(c.levels) && Legal(c, steps) && After(c, steps).control.Done?
    ensures var s := After(c, steps);
            match s.control.outcome
            case Success => s.level == |c.levels|
            case ParentError => s.parentCancelled && forall n :: n in s.begun ==> n in s.deployed
            case Failures(names) => names != [] && forall n :: n in names <==> n in s.begun && n !in s.deployed
    ensures forall n :: n in After(c, steps).begun ==> LevelOf(c.levels, n) <= After(c, steps).level
  {
    RunInv(c, steps);
    var s := After(c, steps);
    forall n | n in s.bodies ensures LevelOf(c.levels, n) == s.level && BodyAgrees(s, n) {
      BodiesAreCurrent(c, s, n);
    }
  }

  // DeployedPackages and the meaning of success.

  /** The deployed packages in level order. */
  method DeployedPackages(levels: Levels, deployed: set<string>) returns (result: seq<string>)
    ensures result == Keep(Flatten(levels), deployed)
  {
    result := [];
    for i := 0 to |levels|
      invariant result == Keep(Flatten(levels[..i]), deployed)
    {
      var level := levels[i];
      assert levels[..i + 1] == levels[..i] + [level];
      FlattenSnoc(levels[..i], level);
      assert Flatten(levels[..i]) + level[..0] == Flatten(levels[..i]);
      for j := 0 to |level|
        invariant result == Keep(Flatten(levels[..i]) + level[..j], deployed)
      {
        assert (Flatten(levels[..i]) + level[..j + 1])[..|Flatten(levels[..i])| + j]
             == Flatten(levels[..i]) + level[..j];
        if level[j] in deployed {
          result := result + [level[j]];
        }
      }
      assert level[..|level|] == level;
    }
    assert levels[..|levels|] == levels;
  }

  lemma {:induction false} KeepNone(names: seq<string>, some: set<string>)
    requires forall n :: n in names ==> n !in some
    ensures Keep(names, some) == []
  {
    if names != [] {
      KeepNone(names[..|names| - 1], some);
    }
  }

  lemma FlattenLevelOf(levels: Levels, n: string)
    ensures n in Flatten(levels) <==> LevelOf(levels, n) >= 0
  {
    FlattenMember(levels, n);
  }

  /** When Run returns nil, every package of every level was deployed exactly once, and DeployedPackages lists all. */
  lemma SuccessMeansAllDeployed(c: Config, steps: seq<Step>)
    requires Distinct(c.levels) && Legal(c, steps) && After(c, steps).control == Done(Success)
    ensures After(c, steps).deployed == Elements(Flatten(c.levels))
    ensures NoDuplicates(After(c, steps).begun) && Elements(After(c, steps).begun) == Elements(Flatten(c.levels))
    ensures Keep(Flatten(c.levels), After(c, steps).deployed) == Flatten(c.levels)
  {
    RunInv(c, steps);
    var s := After(c, steps);
    forall n ensures n in Flatten(c.levels) <==> Earlier(c, s, n) {
      FlattenLevelOf(c.levels, n);
    }
    assert s.bodies == map[];
    KeepAll(Flatten(c.levels), s.deployed);
  }

  // One slot: deployments happen strictly in level order.

  ghost predicate AllBefore(level: seq<string>, j: nat, deployed: set<string>)
    requires j <= |level|
  {
    forall i :: 0 <= i < j ==> level[i] in deployed
  }

  /** The j-th body is finished unless it is the newest, and past its check only if all before it are deployed. */
  ghost predicate SoloAt(c: Config, s: State, j: nat)
    requires j < s.next <= |CurrentLevel(c, s)|
  {
    var level := CurrentLevel(c, s);
    && (j < s.next - 1 ==> InPhase(s, level[j], Released))
    && (InPhase(s, level[j], Checked) || level[j] in s.begun ==> AllBefore(level, j, s.deployed))
  }

  /** With one slot, all bodies but the newest are finished, and whoever passed the context check found everything
      before it deployed. */
  ghost predicate Solo(c: Config, s: State) {
    s.next <= |CurrentLevel(c, s)| && forall j :: 0 <= j < s.next ==> SoloAt(c, s, j)
  }

  lemma AcquireSolo(c: Config, s: State)
    requires Distinct(c.levels) && c.limit == 1 && Inv(c, s) && Solo(c, s) && Enabled(c, s, AcquireSlot)
    ensures Solo(c, Apply(c, s, AcquireSlot))
  {
    var level, t := CurrentLevel(c, s), Apply(c, s, AcquireSlot);
    NextIsNew(c, s);
    assert Holders(s) == {};
    forall j | 0 <= j < t.next ensures SoloAt(c, t, j) {
      if j < s.next {
        assert SoloAt(c, s, j);
        assert level[j] in Elements(level[..s.next]);
        assert level[j] !in Holders(s);
      }
    }
  }

  lemma AdmittedIsLast(c: Config, s: State, n: string)
    requires Inv(c, s) && Solo(c, s) && InPhase(s, n, Admitted)
    ensures s.next > 0 && n == CurrentLevel(c, s)[s.next - 1]
  {
    var started := CurrentLevel(c, s)[..s.next];
    assert n in Elements(started);
    var k :| 0 <= k < |started| && started[k] == n;
    assert SoloAt(c, s, k);
  }

  /** While the context is live, whoever is finished is deployed. */
  lemma FinishedAreDeployed(c: Config, s: State)
    requires Inv(c, s) && Solo(c, s) && !s.derivedCancelled && s.next > 0
    ensures AllBefore(CurrentLevel(c, s), s.next - 1, s.deployed)
  {
    forall i | 0 <= i < s.next - 1 ensures CurrentLevel(c, s)[i] in s.deployed {
      assert SoloAt(c, s, i);
      assert BodyAgrees(s, CurrentLevel(c, s)[i]);
    }
  }

  lemma CheckSolo(c: Config, s: State, n: string)
    requires Distinct(c.levels) && Inv(c, s) && Solo(c, s) && Enabled(c, s, CheckContext(n))
    ensures Solo(c, Apply(c, s, CheckContext(n)))
  {
    var level, t := CurrentLevel(c, s), Apply(c, s, CheckContext(n));
    AdmittedIsLast(c, s, n);
    if !s.derivedCancelled {
      FinishedAreDeployed(c, s);
    }
    forall j | 0 <= j < t.next ensures SoloAt(c, t, j) {
      assert SoloAt(c, s, j);
    }
  }

  /** A body past its context check that moves on, without anything leaving deployed. */
  lemma MoveSolo(c: Config, s: State, t: State, n: string)
    requires Inv(c, s) && Solo(c, s) && n in s.bodies && n in t.bodies
    requires s.bodies[n] != Released && s.bodies[n] != Admitted && t.bodies[n] != Checked
    requires t.level == s.level && t.next == s.next && t.bodies == s.bodies[n := t.bodies[n]]
    requires s.deployed <= t.deployed
    requires forall m :: m in t.begun ==> m in s.begun || (m == n && s.bodies[n] == Checked)
    ensures Solo(c, t)
  {
    forall j | 0 <= j < t.next ensures SoloAt(c, t, j) {
      assert SoloAt(c, s, j);
    }
  }

  lemma SameBodiesSolo(c: Config, s: State, t: State)
    requires Solo(c, s)
    requires t.next == 0 || (t.next == s.next && t.level == s.level && t.bodies == s.bodies && t.begun == s.begun
                             && t.deployed == s.deployed)
    ensures Solo(c, t)
  {
    forall j | 0 <= j < t.next ensures SoloAt(c, t, j) {
      assert SoloAt(c, s, j);
    }
  }

  lemma StepSolo(c: Config, s: State, step: Step)
    requires Distinct(c.levels) && c.limit == 1 && Inv(c, s) && Solo(c, s) && Enabled(c, s, step)
    ensures Solo(c, Apply(c, s, step))
  {
    var t := Apply(c, s, step);
    if step == AcquireSlot {
      AcquireSolo(c, s);
    } else if step.CheckContext? {
      CheckSolo(c, s, step.name);
    } else if step.EnterLevel? || step.Admit? || step.WaitReturns? || step.ReadErrors? || step.LeaveLevel?
              || step.CancelParent? || step.PropagateCancel? {
      SameBodiesSolo(c, s, t);
    } else {
      MoveSolo(c, s, t, step.name);
    }
  }

  lemma {:induction false} RunSolo(c: Config, steps: seq<Step>)
    requires Distinct(c.levels) && c.limit == 1 && Legal(c, steps)
    ensures Solo(c, After(c, steps))
    decreases |steps|
  {
    if steps != [] {
      var init := steps[..|steps| - 1];
      RunSolo(c, init);
      RunInv(c, init);
      StepSolo(c, After(c, init), steps[|steps| - 1]);
    }
  }

  lemma {:induction false} KeepClosedPrefix(names: seq<string>, kept: set<string>)
    requires forall i, j :: 0 <= i < j < |names| && names[j] in kept ==> names[i] in kept
    ensures Keep(names, kept) <= names
  {
    if names != [] {
      var init := names[..|names| - 1];
      if names[|names| - 1] in kept {
        KeepAll(names, kept);
      } else {
        KeepClosedPrefix(init, kept);
        assert Keep(names, kept) == Keep(init, kept);
        assert init <= names;
      }
    }
  }

  lemma {:induction false} FlattenConcat(a: Levels, b: Levels)
    ensures Flatten(a + b) == Flatten(a) + Flatten(b)
  {
    if a == [] {
      assert a + b == b;
    } else {
      assert (a + b)[1..] == a[1..] + b;
      FlattenConcat(a[1..], b);
    }
  }

  lemma FlattenAround(levels: Levels, k: nat)
    requires k < |levels|
    ensures Flatten(levels) == Flatten(levels[..k]) + levels[k] + Flatten(levels[k + 1..])
  {
    assert levels == levels[..k] + levels[k..];
    FlattenConcat(levels[..k], levels[k..]);
    assert levels[k..][1..] == levels[k + 1..];
  }

  lemma SoloLevelPrefix(c: Config, s: State)
    requires Distinct(c.levels) && Inv(c, s) && Solo(c, s) && s.level < |c.levels|
    ensures Keep(c.levels[s.level], s.deployed) <= c.levels[s.level]
  {
    var level := c.levels[s.level];
    forall i, j | 0 <= i < j < |level| && level[j] in s.deployed ensures level[i] in s.deployed {
      assert level[j] in c.levels[s.level] && !Earlier(c, s, level[j]);
      var k :| 0 <= k < |level[..s.next]| && level[..s.next][k] == level[j];
      assert level[k] == level[j] && k == j;
      assert BodyAgrees(s, level[j]) && SoloAt(c, s, j);
    }
    KeepClosedPrefix(level, s.deployed);
  }

  lemma EarlierLevelsDeployed(c: Config, s: State)
    requires Distinct(c.levels) && Inv(c, s)
    ensures forall n :: n in Flatten(c.levels[..s.level]) ==> n in s.deployed
  {
    forall n | n in Flatten(c.levels[..s.level]) ensures n in s.deployed {
      FlattenMember(c.levels[..s.level], n);
      var i :| 0 <= i < s.level && n in c.levels[..s.level][i];
      assert n in c.levels[i];
      assert Earlier(c, s, n);
    }
  }

  lemma LaterLevelsNotDeployed(c: Config, s: State)
    requires Distinct(c.levels) && Inv(c, s) && s.level < |c.levels|
    ensures forall n :: n in Flatten(c.levels[s.level + 1..]) ==> n !in s.deployed
  {
    var later := c.levels[s.level + 1..];
    forall n | n in Flatten(later) ensures n !in s.deployed {
      FlattenMember(later, n);
      var i :| 0 <= i < |later| && n in later[i];
      assert n in c.levels[s.level + 1 + i];
      if n in s.bodies {
        BodiesAreCurrent(c, s, n);
      }
    }
  }

  lemma PrefixBetween(before: seq<string>, kept: seq<string>, level: seq<string>, after: seq<string>)
    requires kept <= level
    ensures before + kept + [] <= before + level + after
  {
  }

  /** At concurrency 1 the deployed packages are at every moment a prefix of the flattened levels. */
  lemma SequentialPrefix(c: Config, steps: seq<Step>)
    requires Distinct(c.levels) && c.limit == 1 && Legal(c, steps)
    ensures Keep(Flatten(c.levels), After(c, steps).deployed) <= Flatten(c.levels)
  {
    RunInv(c, steps);
    RunSolo(c, steps);
    SoloPrefix(c, After(c, steps));
  }

  lemma SoloPrefix(c: Config, s: State)
    requires Distinct(c.levels) && Inv(c, s) && Solo(c, s)
    ensures Keep(Flatten(c.levels), s.deployed) <= Flatten(c.levels)
  {
    EarlierLevelsDeployed(c, s);
    var before := Flatten(c.levels[..s.level]);
    KeepAll(before, s.deployed);
    if s.level == |c.levels| {
      assert c.levels[..s.level] == c.levels;
    } else {
      var level, after := c.levels[s.level], Flatten(c.levels[s.level + 1..]);
      FlattenAround(c.levels, s.level);
      KeepConcat(before + level, after, s.deployed);
      KeepConcat(before, level, s.deployed);
      LaterLevelsNotDeployed(c, s);
      KeepNone(after, s.deployed);
      SoloLevelPrefix(c, s);
      PrefixBetween(before, Keep(level, s.deployed), level, after);
    }
  }

  // Every run comes to an end.

  function PhaseCost(phase: Phase): nat {
    match phase
    case Admitted => 6
    case Checked => 5
    case Deploying => 4
    case Failed => 3
    case Succeeded => 2
    case Reported => 2
    case Recorded => 1
    case Cancelled => 1
    case Declined => 1
    case Released => 0
  }

  /** The steps the bodies of the level still have to take. */
  function BodiesCost(names: seq<string>, bodies: map<string, Phase>): nat {
    if names == [] then 0
    else
      var n := names[|names| - 1];
      BodiesCost(names[..|names| - 1], bodies) + if n in bodies then PhaseCost(bodies[n]) else 0
  }

  lemma {:induction false} BodiesCostOutside(names: seq<string>, bodies: map<string, Phase>, n: string, phase: Phase)
    requires n !in names
    ensures BodiesCost(names, bodies[n := phase]) == BodiesCost(names, bodies)
  {
    if names != [] {
      BodiesCostOutside(names[..|names| - 1], bodies, n, phase);
    }
  }

  lemma {:induction false} BodiesCostMove(names: seq<string>, bodies: map<string, Phase>, n: string, phase: Phase)
    requires NoDuplicates(names) && n in names && n in bodies
    ensures BodiesCost(names, bodies[n := phase]) ==
            BodiesCost(names, bodies) - PhaseCost(bodies[n]) + PhaseCost(phase)
  {
    var init, last := names[..|names| - 1], names[|names| - 1];
    assert names == init + [last];
    if n == last {
      BodiesCostOutside(init, bodies, n, phase);
    } else {
      BodiesCostMove(init, bodies, n, phase);
    }
  }

  function LevelCost(c: Config, k: nat): nat {
    8 * (if k < |c.levels| then |c.levels[k]| else 0) + 8
  }

  function LaterCost(c: Config, k: nat): nat
    decreases |c.levels| + 1 - k
  {
    if k > |c.levels| then 0 else LevelCost(c, k) + LaterCost(c, k + 1)
  }

  function ControlCost(c: Config, s: State): int {
    var rest := |CurrentLevel(c, s)| - s.next;
    match s.control
    case LevelStart => 8 * rest + 6
    case Admitting => 8 * rest + 5
    case Acquiring => 8 * rest + 4
    case Waiting => 4
    case LevelErrors => 3
    case LevelEnd => 2
    case Done(_) => 0
  }

  function LevelBodiesCost(c: Config, s: State): nat
    requires s.next <= |CurrentLevel(c, s)|
  {
    BodiesCost(CurrentLevel(c, s)[..s.next], s.bodies)
  }

  /** An upper bound on the steps a run can still take. */
  function Cost(c: Config, s: State): int
    requires s.next <= |CurrentLevel(c, s)|
  {
    ControlCost(c, s) + LevelBodiesCost(c, s) + LaterCost(c, s.level + 1)
    + (if s.derivedCancelled then 0 else 1) + if s.parentCancelled then 0 else 1
  }

  lemma LevelDistinct(c: Config, s: State)
    requires Distinct(c.levels) && Inv(c, s)
    ensures NoDuplicates(CurrentLevel(c, s)[..s.next])
  {
  }

  lemma MoveCost(c: Config, s: State, n: string, phase: Phase)
    requires Distinct(c.levels) && Inv(c, s) && n in s.bodies
    ensures LevelBodiesCost(c, Move(s, n, phase)) ==
            LevelBodiesCost(c, s) - PhaseCost(s.bodies[n]) + PhaseCost(phase)
  {
    LevelDistinct(c, s);
    assert n in Elements(CurrentLevel(c, s)[..s.next]);
    BodiesCostMove(CurrentLevel(c, s)[..s.next], s.bodies, n, phase);
  }

  lemma BodiesCostSnoc(names: seq<string>, n: string, bodies: map<string, Phase>, phase: Phase)
    requires n !in names
    ensures BodiesCost(names + [n], bodies[n := phase]) == BodiesCost(names, bodies) + PhaseCost(phase)
  {
    BodiesCostOutside(names, bodies, n, phase);
    assert (names + [n])[..|names|] == names;
  }

  lemma OneMoreBodyCost(level: seq<string>, next: nat, bodies: map<string, Phase>)
    requires next < |level| && level[next] !in level[..next]
    ensures BodiesCost(level[..next + 1], bodies[level[next] := Admitted])
         == BodiesCost(level[..next], bodies) + PhaseCost(Admitted)
  {
    assert level[..next + 1] == level[..next] + [level[next]];
    BodiesCostSnoc(level[..next], level[next], bodies, Admitted);
  }

  lemma AcquireBodiesCost(c: Config, s: State)
    requires Distinct(c.levels) && Inv(c, s) && Enabled(c, s, AcquireSlot)
    ensures var t := Apply(c, s, AcquireSlot);
            t.next <= |CurrentLevel(c, t)| && LevelBodiesCost(c, t) == LevelBodiesCost(c, s) + PhaseCost(Admitted)
  {
    NextIsNew(c, s);
    OneMoreBodyCost(CurrentLevel(c, s), s.next, s.bodies);
  }

  lemma AcquireCost(c: Config, s: State)
    requires Distinct(c.levels) && Inv(c, s) && Enabled(c, s, AcquireSlot)
    ensures var t := Apply(c, s, AcquireSlot);
            t.next <= |CurrentLevel(c, t)| && Cost(c, t) < Cost(c, s)
  {
    AcquireBodiesCost(c, s);
  }

  lemma {:induction false} ReleasedCost(names: seq<string>, bodies: map<string, Phase>)
    requires forall n :: n in bodies ==> bodies[n] == Released
    ensures BodiesCost(names, bodies) == 0
  {
    if names != [] {
      ReleasedCost(names[..|names| - 1], bodies);
    }
  }

  lemma LeaveCost(c: Config, s: State)
    requires Inv(c, s) && Enabled(c, s, LeaveLevel)
    ensures var t := Apply(c, s, LeaveLevel);
            t.next <= |CurrentLevel(c, t)| && Cost(c, t) < Cost(c, s)
  {
    ReleasedCost(CurrentLevel(c, s)[..s.next], s.bodies);
    assert LaterCost(c, s.level + 1) == LevelCost(c, s.level + 1) + LaterCost(c, s.level + 2);
  }

  lemma BodyStepCost(c: Config, s: State, t: State, n: string)
    requires Distinct(c.levels) && Inv(c, s) && n in s.bodies && n in t.bodies
    requires t.bodies == s.bodies[n := t.bodies[n]] && PhaseCost(t.bodies[n]) < PhaseCost(s.bodies[n])
    requires t.control == s.control && t.level == s.level && t.next == s.next
    requires t.parentCancelled == s.parentCancelled && (s.derivedCancelled ==> t.derivedCancelled)
    ensures Cost(c, t) < Cost(c, s)
  {
    MoveCost(c, s, n, t.bodies[n]);
    CheaperBodies(c, s, Move(s, n, t.bodies[n]), t);
  }

  lemma CheaperBodies(c: Config, s: State, moved: State, t: State)
    requires t.bodies == moved.bodies && s.next == moved.next && s.level == moved.level
    requires t.control == s.control && t.level == s.level && t.next == s.next <= |CurrentLevel(c, s)|
    requires t.parentCancelled == s.parentCancelled && (s.derivedCancelled ==> t.derivedCancelled)
    requires LevelBodiesCost(c, moved) < LevelBodiesCost(c, s)
    ensures Cost(c, t) < Cost(c, s)
  {
  }

  ghost predicate Cheaper(c: Config, s: State, t: State) {
    s.next <= |CurrentLevel(c, s)| && t.next <= |CurrentLevel(c, t)| && Cost(c, t) < Cost(c, s)
  }

  predicate ControlStep(step: Step) {
    step.EnterLevel? || step.Admit? || step.WaitReturns? || step.ReadErrors? || step.CancelParent?
        || step.PropagateCancel?
  }

  lemma ControlStepCost(c: Config, s: State, step: Step)
    requires s.next <= |CurrentLevel(c, s)| && Enabled(c, s, step) && ControlStep(step)
    ensures Cheaper(c, s, Apply(c, s, step))
  {
    assert LevelBodiesCost(c, Apply(c, s, step)) == LevelBodiesCost(c, s);
  }

  predicate NamedStep(step: Step) {
    !ControlStep(step) && step != AcquireSlot && step != LeaveLevel
  }

  /** A step of a body moves it to a cheaper phase and leaves the control as it is. */
  lemma NamedStepMoves(c: Config, s: State, step: Step)
    requires Enabled(c, s, step) && NamedStep(step)
    ensures var n, t := step.name, Apply(c, s, step);
            && n in s.bodies && n in t.bodies && t.bodies == s.bodies[n := t.bodies[n]]
            && PhaseCost(t.bodies[n]) < PhaseCost(s.bodies[n])
            && t.control == s.control && t.level == s.level && t.next == s.next
            && t.parentCancelled == s.parentCancelled && (s.derivedCancelled ==> t.derivedCancelled)
  {
  }

  lemma NamedStepCost(c: Config, s: State, step: Step)
    requires Distinct(c.levels) && Inv(c, s) && Enabled(c, s, step)
    requires NamedStep(step)
    ensures Cheaper(c, s, Apply(c, s, step))
  {
    NamedStepMoves(c, s, step);
    BodyStepCost(c, s, Apply(c, s, step), step.name);
  }

  lemma StepCost(c: Config, s: State, step: Step)
    requires Distinct(c.levels) && Inv(c, s) && Enabled(c, s, step)
    ensures Cheaper(c, s, Apply(c, s, step))
  {
    if step == AcquireSlot {
      AcquireCost(c, s);
    } else if step == LeaveLevel {
      LeaveCost(c, s);
    } else if ControlStep(step) {
      ControlStepCost(c, s, step);
    } else {
      NamedStepCost(c, s, step);
    }
  }

  /** Every step makes what is left cheaper. */
  lemma {:induction false} RunCost(c: Config, steps: seq<Step>)
    requires Distinct(c.levels) && Legal(c, steps)
    ensures After(c, steps).next <= |CurrentLevel(c, After(c, steps))|
    ensures |steps| + Cost(c, After(c, steps)) <= Cost(c, Start())
    decreases |steps|
  {
    RunInv(c, steps);
    if steps != [] {
      var init := steps[..|steps| - 1];
      RunCost(c, init);
      RunInv(c, init);
      StepCost(c, After(c, init), steps[|steps| - 1]);
    }
  }

  lemma {:induction false} LaterCostIsLinear(c: Config, k: nat)
    requires k <= |c.levels|
    ensures LaterCost(c, k) == 8 * (|Flatten(c.levels[k..])| + |c.levels| - k + 1)
    decreases |c.levels| - k
  {
    if k < |c.levels| {
      LaterCostIsLinear(c, k + 1);
      assert c.levels[k..][0] == c.levels[k] && c.levels[k..][1..] == c.levels[k + 1..];
    } else {
      assert LaterCost(c, k + 1) == 0;
    }
  }

  lemma StartCost(c: Config)
    ensures Cost(c, Start()) == 8 * (|Flatten(c.levels)| + |c.levels| + 1)
  {
    LaterCostIsLinear(c, 0);
    assert c.levels[0..] == c.levels;
    assert LaterCost(c, 0) == LevelCost(c, 0) + LaterCost(c, 1);
  }

  /** No run is longer than a bound linear in packages and levels, whatever the deployments and cancellations do. */
  lemma RunsAreBounded(c: Config, steps: seq<Step>)
    requires Distinct(c.levels) && Legal(c, steps)
    ensures |steps| <= 8 * (|Flatten(c.levels)| + |c.levels| + 1)
  {
    RunCost(c, steps);
    CostNonnegative(c, After(c, steps));
    StartCost(c);
  }

  lemma CostNonnegative(c: Config, s: State)
    requires s.next <= |CurrentLevel(c, s)|
    ensures Cost(c, s) >= 0
  {
  }

  /** A run that is not finished can always go on without outside help: Run never deadlocks, so with the bound above
      every maximal run ends with an outcome. */
  lemma NeverStuck(c: Config, steps: seq<Step>) returns (step: Step)
    requires c.limit >= 1 && Distinct(c.levels) && Legal(c, steps)
    ensures After(c, steps).control.Done? || (step != CancelParent && Legal(c, steps + [step]))
  {
    RunInv(c, steps);
    var s := After(c, steps);
    step := EnterLevel;
    if !s.control.Done? {
      step := MovableStep(c, s);
      assert (steps + [step])[..|steps|] == steps;
    }
  }

  lemma MovableStep(c: Config, s: State) returns (step: Step)
    requires c.limit >= 1 && Inv(c, s) && !s.control.Done?
    ensures step != CancelParent && Enabled(c, s, step)
  {
    match s.control
    case LevelStart => step := EnterLevel;
    case Admitting => step := Admit;
    case LevelErrors => step := ReadErrors;
    case LevelEnd => step := LeaveLevel;
    case Acquiring =>
      if s.held < c.limit {
        step := AcquireSlot;
      } else {
        var n :| n in Holders(s);
        step := BodyStep(c, s, n);
      }
    case Waiting =>
      if Holders(s) == {} {
        assert forall n :: n in s.bodies ==> n !in Holders(s);
        step := WaitReturns;
      } else {
        var n :| n in Holders(s);
        step := BodyStep(c, s, n);
      }
  }

  lemma BodyStep(c: Config, s: State, n: string) returns (step: Step)
    requires Inv(c, s) && n in Holders(s)
    ensures step != CancelParent && Enabled(c, s, step)
  {
    assert s.held > 0;
    match s.bodies[n]
    case Admitted => step := CheckContext(n);
    case Checked => step := Begin(n);
    case Deploying => step := DeployReturns(n, true);
    case Succeeded => step := Record(n);
    case Failed => step := Report(n);
    case Reported => step := CancelDerived(n);
    case _ => step := ReleaseSlot(n);
  }
}

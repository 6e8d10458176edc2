/** The levelled, bounded, fail-stop scheduler of internal/zarf/deploy_orchestrator.go as a step machine.

    Of errgroup it takes for granted only that a body starts when fewer than limit bodies hold a slot, that the
    first error cancels the derived context before its body's slot is released, and that cancellation is sticky. */
module DeployScheduler {
  import opened Sequences
  import opened Levels

  datatype Config = Config(levels: Levels, limit: nat)

  /** Where the function passed to g.Go stands for one package. */
  datatype Phase =
    | Admitted   // the slot is held, the derived context not yet consulted again
    | Checked    // the derived context was seen live, DeployPackage not yet called
    | Deploying  // inside DeployPackage
    | Succeeded  // DeployPackage returned nil
    | Recorded   // the name is in deployed and the body has returned nil
    | Failed     // DeployPackage returned an error
    | Reported   // the error is in the accumulator and the body has returned it
    | Cancelled  // errgroup has cancelled the derived context for that error
    | Declined   // the body has returned the derived context's error instead of deploying
    | Released   // the slot is given back

  datatype Outcome = Success | ParentError | Failures(names: seq<string>)

  /** Where Run stands. */
  datatype Control =
    | LevelStart     // before the parent context check of a level
    | Admitting      // before the derived context check for the next package
    | Acquiring      // inside g.Go, waiting for a slot
    | Waiting        // inside g.Wait
    | LevelErrors    // before the accumulator is read
    | LevelEnd       // before the second parent context check
    | Done(outcome: Outcome)

  datatype State = State(
    control: Control,
    level: nat,
    next: nat,                  // how many packages of the level have been handed to g.Go
    bodies: map<string, Phase>, // the bodies of the level
    held: nat,                  // slots in use
    derivedCancelled: bool,
    parentCancelled: bool,
    levelErrs: seq<string>,     // the packages whose errors the accumulator holds
    deployed: set<string>,
    begun: seq<string>          // every call of DeployPackage so far
  )

  datatype Step =
    | EnterLevel
    | Admit
    | AcquireSlot
    | CheckContext(name: string)
    | Begin(name: string)
    | DeployReturns(name: string, ok: bool)
    | Record(name: string)
    | Report(name: string)
    | CancelDerived(name: string)
    | ReleaseSlot(name: string)
    | WaitReturns
    | ReadErrors
    | LeaveLevel
    | CancelParent
    | PropagateCancel

  function Start(): State {
    State(LevelStart, 0, 0, map[], 0, false, false, [], {}, [])
  }

  function CurrentLevel(c: Config, s: State): seq<string> {
    if s.level < |c.levels| then c.levels[s.level] else []
  }

  predicate InPhase(s: State, n: string, phase: Phase) {
    n in s.bodies && s.bodies[n] == phase
  }

  predicate Enabled(c: Config, s: State, step: Step) {
    match step
    case EnterLevel => s.control == LevelStart
    case Admit => s.control == Admitting
    case AcquireSlot => s.control == Acquiring && s.held < c.limit && s.next < |CurrentLevel(c, s)|
    case CheckContext(n) => InPhase(s, n, Admitted)
    case Begin(n) => InPhase(s, n, Checked)
    case DeployReturns(n, _) => InPhase(s, n, Deploying)
    case Record(n) => InPhase(s, n, Succeeded)
    case Report(n) => InPhase(s, n, Failed)
    case CancelDerived(n) => InPhase(s, n, Reported)
    case ReleaseSlot(n) =>
      s.held > 0 && (InPhase(s, n, Recorded) || InPhase(s, n, Cancelled) || InPhase(s, n, Declined))
    case WaitReturns => s.control == Waiting && forall n :: n in s.bodies ==> s.bodies[n] == Released
    case ReadErrors => s.control == LevelErrors
    case LeaveLevel => s.control == LevelEnd
    case CancelParent => !s.control.Done? && !s.parentCancelled
    case PropagateCancel =>
      s.control in {Admitting, Acquiring, Waiting} && s.parentCancelled && !s.derivedCancelled
  }

  function Move(s: State, n: string, phase: Phase): State {
    s.(bodies := s.bodies[n := phase])
  }

  function Apply(c: Config, s: State, step: Step): State
    requires Enabled(c, s, step)
  {
    match step
    case EnterLevel =>
      if s.level >= |c.levels| then s.(control := Done(Success))
      else if s.parentCancelled then s.(control := Done(ParentError))
      else s.(control := Admitting)
    case Admit =>
      if s.next >= |CurrentLevel(c, s)| || s.derivedCancelled then s.(control := Waiting)
      else s.(control := Acquiring)
    case AcquireSlot =>
      Move(s, CurrentLevel(c, s)[s.next], Admitted).(control := Admitting, next := s.next + 1, held := s.held + 1)
    case CheckContext(n) => Move(s, n, if s.derivedCancelled then Declined else Checked)
    case Begin(n) => Move(s, n, Deploying).(begun := s.begun + [n])
    case DeployReturns(n, ok) => Move(s, n, if ok then Succeeded else Failed)
    case Record(n) => Move(s, n, Recorded).(deployed := s.deployed + {n})
    case Report(n) => Move(s, n, Reported).(levelErrs := s.levelErrs + [n])
    case CancelDerived(n) => Move(s, n, Cancelled).(derivedCancelled := true)
    case ReleaseSlot(n) => Move(s, n, Released).(held := s.held - 1)
    case WaitReturns => s.(control := LevelErrors)
    case ReadErrors =>
      if s.levelErrs != [] then s.(control := Done(Failures(s.levelErrs))) else s.(control := LevelEnd)
    case LeaveLevel =>
      if s.parentCancelled then s.(control := Done(ParentError))
      else s.(control := LevelStart, level := s.level + 1, next := 0, bodies := map[], held := 0,
              derivedCancelled := false)
    case CancelParent => s.(parentCancelled := true)
    case PropagateCancel => s.(derivedCancelled := true)
  }

  /** The steps form a run from the start of Run. */
  ghost predicate Legal(c: Config, steps: seq<Step>)
    decreases |steps|, 0
  {
    steps == [] ||
    (Legal(c, steps[..|steps| - 1]) && Enabled(c, After(c, steps[..|steps| - 1]), steps[|steps| - 1]))
  }

  /** The state a run leads to. */
  ghost function After(c: Config, steps: seq<Step>): State
    requires Legal(c, steps)
    decreases |steps|, 1
  {
    if steps == [] then Start() else Apply(c, After(c, steps[..|steps| - 1]), steps[|steps| - 1])
  }

  /** Package names are distinct within and across levels, as those of a validated bundle are. */
  ghost predicate Distinct(levels: Levels) {
    && (forall i, n :: 0 <= i < |levels| && n in levels[i] ==> LevelOf(levels, n) == i)
    && (forall i :: 0 <= i < |levels| ==> NoDuplicates(levels[i]))
  }

  // What every step keeps.

  ghost predicate Placed(c: Config, s: State) {
    && s.level <= |c.levels|
    && s.next <= |CurrentLevel(c, s)|
    && s.bodies.Keys == Elements(CurrentLevel(c, s)[..s.next])
    && (s.control in {Admitting, Acquiring, Waiting, LevelErrors, LevelEnd} ==> s.level < |c.levels|)
    && (s.control == Acquiring ==> s.next < |CurrentLevel(c, s)|)
    && (s.control == LevelStart ==> s.next == 0)
  }

  function Holders(s: State): set<string> {
    set n | n in s.bodies && s.bodies[n] != Released
  }

  ghost predicate Bounded(c: Config, s: State) {
    s.held == |Holders(s)| <= c.limit
  }

  /** What the phase of a body says about the three records. */
  ghost predicate BodyAgrees(s: State, n: string)
    requires n in s.bodies
  {
    match s.bodies[n]
    case Admitted => n !in s.begun && n !in s.deployed && n !in s.levelErrs
    case Checked => n !in s.begun && n !in s.deployed && n !in s.levelErrs
    case Declined => n !in s.begun && n !in s.deployed && n !in s.levelErrs && s.derivedCancelled
    case Deploying => n in s.begun && n !in s.deployed && n !in s.levelErrs
    case Succeeded => n in s.begun && n !in s.deployed && n !in s.levelErrs
    case Failed => n in s.begun && n !in s.deployed && n !in s.levelErrs
    case Recorded => n in s.begun && n in s.deployed && n !in s.levelErrs
    case Reported => n in s.begun && n !in s.deployed && n in s.levelErrs
    case Cancelled => n in s.begun && n !in s.deployed && n in s.levelErrs && s.derivedCancelled
    case Released =>
      || (n in s.begun && n in s.deployed && n !in s.levelErrs)
      || (n in s.begun && n !in s.deployed && n in s.levelErrs && s.derivedCancelled)
      || (n !in s.begun && n !in s.deployed && n !in s.levelErrs && s.derivedCancelled)
  }

  ghost predicate Earlier(c: Config, s: State, n: string) {
    0 <= LevelOf(c.levels, n) < s.level
  }

  ghost predicate Recordings(c: Config, s: State) {
    && (forall n :: n in s.bodies ==> BodyAgrees(s, n))
    && (forall n :: Earlier(c, s, n) ==> n in s.begun && n in s.deployed)
    && (forall n :: n in s.begun ==> Earlier(c, s, n) || n in s.bodies)
    && (forall n :: n in s.deployed ==> Earlier(c, s, n) || n in s.bodies)
    && (forall n :: n in s.levelErrs ==> n in s.bodies)
    && NoDuplicates(s.begun) && NoDuplicates(s.levelErrs)
  }

  ghost predicate Progressed(c: Config, s: State) {
    && (s.derivedCancelled ==> s.parentCancelled || s.levelErrs != [])
    && (s.control in {Waiting, LevelErrors, LevelEnd} && s.next < |CurrentLevel(c, s)| ==> s.derivedCancelled)
    && (s.control in {LevelErrors, LevelEnd} ==> forall n :: n in s.bodies ==> s.bodies[n] == Released)
    && (s.control in {LevelStart, LevelEnd} ==> s.levelErrs == [])
    && (s.control == LevelStart ==> s.bodies == map[] && !s.derivedCancelled)
    && (s.control == Done(Success) ==> s.level == |c.levels| && s.levelErrs == [] && !s.derivedCancelled)
    && (s.control == Done(ParentError) ==>
          s.parentCancelled && s.levelErrs == [] && forall n :: n in s.bodies ==> s.bodies[n] == Released)
    && (s.control.Done? && s.control.outcome.Failures? ==>
          && s.control.outcome.names == s.levelErrs != [] && s.level < |c.levels|
          && forall n :: n in s.bodies ==> s.bodies[n] == Released)
  }

  ghost predicate Inv(c: Config, s: State) {
    Placed(c, s) && Bounded(c, s) && Recordings(c, s) && Progressed(c, s)
  }

  lemma StartInv(c: Config)
    ensures Inv(c, Start())
  {
  }

  lemma AcquirePlaced(c: Config, s: State)
    requires Inv(c, s) && Enabled(c, s, AcquireSlot)
    ensures Placed(c, Apply(c, s, AcquireSlot))
  {
    var level := CurrentLevel(c, s);
    assert level[..s.next + 1] == level[..s.next] + [level[s.next]];
  }

  lemma StepPlaced(c: Config, s: State, step: Step)
    requires Inv(c, s) && Enabled(c, s, step)
    ensures Placed(c, Apply(c, s, step))
  {
    if step == AcquireSlot {
      AcquirePlaced(c, s);
    } else if step != LeaveLevel {
      assert Apply(c, s, step).bodies.Keys == s.bodies.Keys;
    }
  }

  /** The body about to start is not one of the bodies started before. */
  lemma NextIsNew(c: Config, s: State)
    requires Distinct(c.levels) && Inv(c, s) && s.next < |CurrentLevel(c, s)|
    ensures CurrentLevel(c, s)[s.next] !in s.bodies
    ensures CurrentLevel(c, s)[s.next] !in CurrentLevel(c, s)[..s.next]
    ensures !Earlier(c, s, CurrentLevel(c, s)[s.next])
  {
    var level := CurrentLevel(c, s);
    assert level[s.next] in c.levels[s.level];
    assert level[s.next] !in level[..s.next];
  }

  lemma BodiesAreCurrent(c: Config, s: State, n: string)
    requires Distinct(c.levels) && Inv(c, s) && n in s.bodies
    ensures LevelOf(c.levels, n) == s.level
  {
    assert n in Elements(CurrentLevel(c, s)[..s.next]);
    assert n in c.levels[s.level];
  }

  lemma AcquireBounded(c: Config, s: State)
    requires Distinct(c.levels) && Inv(c, s) && Enabled(c, s, AcquireSlot)
    ensures Bounded(c, Apply(c, s, AcquireSlot))
  {
    NextIsNew(c, s);
    assert Holders(Apply(c, s, AcquireSlot)) == Holders(s) + {CurrentLevel(c, s)[s.next]};
  }

  lemma ReleaseBounded(c: Config, s: State, n: string)
    requires Inv(c, s) && Enabled(c, s, ReleaseSlot(n))
    ensures Bounded(c, Apply(c, s, ReleaseSlot(n)))
  {
    assert n in Holders(s);
    assert Holders(Apply(c, s, ReleaseSlot(n))) == Holders(s) - {n};
  }

  lemma LeaveBounded(c: Config, s: State)
    requires Inv(c, s) && Enabled(c, s, LeaveLevel)
    ensures Bounded(c, Apply(c, s, LeaveLevel))
  {
    var t := Apply(c, s, LeaveLevel);
    if s.parentCancelled {
      assert Holders(t) == Holders(s);
    } else {
      assert Holders(t) == {};
    }
  }

  lemma HoldersKept(s: State, t: State, n: string)
    requires n in s.bodies && n in t.bodies && t.bodies == s.bodies[n := t.bodies[n]]
    requires s.bodies[n] != Released && t.bodies[n] != Released
    ensures Holders(t) == Holders(s)
  {
  }

  lemma StepBounded(c: Config, s: State, step: Step)
    requires Distinct(c.levels) && Inv(c, s) && Enabled(c, s, step)
    ensures Bounded(c, Apply(c, s, step))
  {
    var t := Apply(c, s, step);
    if step == AcquireSlot {
      AcquireBounded(c, s);
    } else if step == LeaveLevel {
      LeaveBounded(c, s);
    } else if step.ReleaseSlot? {
      ReleaseBounded(c, s, step.name);
    } else if step.EnterLevel? || step.Admit? || step.WaitReturns? || step.ReadErrors? || step.CancelParent?
              || step.PropagateCancel? {
      assert t.bodies == s.bodies;
      assert Holders(t) == Holders(s);
    } else {
      HoldersKept(s, t, step.name);
    }
  }

  /** A step adds to the records nothing but the body it names. */
  lemma StepKeepsOthers(c: Config, s: State, step: Step, n: string)
    requires Inv(c, s) && Enabled(c, s, step)
    requires n in s.bodies && n in Apply(c, s, step).bodies && Apply(c, s, step).bodies[n] == s.bodies[n]
    ensures var t := Apply(c, s, step);
            && (n in t.begun <==> n in s.begun) && (n in t.deployed <==> n in s.deployed)
            && (n in t.levelErrs <==> n in s.levelErrs) && (s.derivedCancelled ==> t.derivedCancelled)
  {
    if step.Begin? || step.Record? || step.Report? {
      assert Apply(c, s, step).bodies[step.name] != s.bodies[step.name];
    }
  }

  lemma BodyStillAgrees(s: State, t: State, n: string)
    requires n in s.bodies && n in t.bodies && t.bodies[n] == s.bodies[n] && BodyAgrees(s, n)
    requires (n in t.begun <==> n in s.begun) && (n in t.deployed <==> n in s.deployed)
    requires (n in t.levelErrs <==> n in s.levelErrs) && (s.derivedCancelled ==> t.derivedCancelled)
    ensures BodyAgrees(t, n)
  {
  }

  lemma MovedBodyAgrees(c: Config, s: State, step: Step, n: string)
    requires Enabled(c, s, step) && n in s.bodies && n in Apply(c, s, step).bodies && BodyAgrees(s, n)
    requires Apply(c, s, step).bodies[n] != s.bodies[n] && step != AcquireSlot
    ensures BodyAgrees(Apply(c, s, step), n)
  {
    match step
    case CheckContext(m) => assert m == n;
    case Begin(m) => assert m == n;
    case DeployReturns(m, _) => assert m == n;
    case Record(m) => assert m == n;
    case Report(m) => assert m == n;
    case CancelDerived(m) => assert m == n;
    case ReleaseSlot(m) => assert m == n;
    case _ =>
  }

  lemma StepBodiesAgree(c: Config, s: State, step: Step, n: string)
    requires Distinct(c.levels) && Inv(c, s) && Enabled(c, s, step)
    requires n in Apply(c, s, step).bodies
    ensures BodyAgrees(Apply(c, s, step), n)
  {
    var t := Apply(c, s, step);
    if n !in s.bodies {
      NextIsNew(c, s);
    } else if t.bodies[n] == s.bodies[n] {
      StepKeepsOthers(c, s, step, n);
      BodyStillAgrees(s, t, n);
    } else {
      if step == AcquireSlot {
        NextIsNew(c, s);
      }
      MovedBodyAgrees(c, s, step, n);
    }
  }

  lemma CurrentAreBodies(c: Config, s: State, n: string)
    requires Distinct(c.levels) && Inv(c, s) && s.control == LevelEnd && !s.parentCancelled
    requires LevelOf(c.levels, n) == s.level
    ensures n in s.bodies && n in s.begun && n in s.deployed
  {
    var level := CurrentLevel(c, s);
    assert level[..s.next] == level;
    assert n in Elements(level);
    assert BodyAgrees(s, n);
  }

  /** A finished level becomes an earlier one. */
  lemma LeaveRecordings(c: Config, s: State)
    requires Distinct(c.levels) && Inv(c, s) && Enabled(c, s, LeaveLevel)
    ensures Recordings(c, Apply(c, s, LeaveLevel))
  {
    var t := Apply(c, s, LeaveLevel);
    if !s.parentCancelled {
      forall n | Earlier(c, t, n) ensures n in t.begun && n in t.deployed {
        if !Earlier(c, s, n) {
          CurrentAreBodies(c, s, n);
        }
      }
      forall n | n in s.bodies ensures Earlier(c, t, n) {
        BodiesAreCurrent(c, s, n);
      }
    } else {
      forall n | n in t.bodies { StepBodiesAgree(c, s, LeaveLevel, n); }
    }
  }

  /** Steps that record nothing may start, move or admit bodies. */
  lemma SameRecords(c: Config, s: State, t: State)
    requires Recordings(c, s) && t.level == s.level && s.bodies.Keys <= t.bodies.Keys
    requires t.begun == s.begun && t.deployed == s.deployed && t.levelErrs == s.levelErrs
    requires forall n :: n in t.bodies ==> BodyAgrees(t, n)
    ensures Recordings(c, t)
  {
    forall n | Earlier(c, t, n) ensures n in t.begun && n in t.deployed {
      assert Earlier(c, s, n);
    }
  }

  /** Steps that record something record it of a body. */
  lemma BeginRecorded(c: Config, s: State, t: State, n: string)
    requires Recordings(c, s) && n in s.bodies && n !in s.begun
    requires t.level == s.level && t.bodies.Keys == s.bodies.Keys && t.begun == s.begun + [n]
    requires t.deployed == s.deployed && t.levelErrs == s.levelErrs && forall m :: m in t.bodies ==> BodyAgrees(t, m)
    ensures Recordings(c, t)
  {
    assert forall m :: Earlier(c, t, m) <==> Earlier(c, s, m);
  }

  lemma DeployedRecorded(c: Config, s: State, t: State, n: string)
    requires Recordings(c, s) && n in s.bodies && n in s.begun
    requires t.level == s.level && t.bodies.Keys == s.bodies.Keys && t.deployed == s.deployed + {n}
    requires t.begun == s.begun && t.levelErrs == s.levelErrs && forall m :: m in t.bodies ==> BodyAgrees(t, m)
    ensures Recordings(c, t)
  {
    assert forall m :: Earlier(c, t, m) <==> Earlier(c, s, m);
  }

  lemma ErrorRecorded(c: Config, s: State, t: State, n: string)
    requires Recordings(c, s) && n in s.bodies && n !in s.levelErrs
    requires t.level == s.level && t.bodies.Keys == s.bodies.Keys && t.levelErrs == s.levelErrs + [n]
    requires t.begun == s.begun && t.deployed == s.deployed && forall m :: m in t.bodies ==> BodyAgrees(t, m)
    ensures Recordings(c, t)
  {
    assert forall m :: Earlier(c, t, m) <==> Earlier(c, s, m);
  }

  lemma StepBodies(c: Config, s: State, step: Step)
    requires Distinct(c.levels) && Inv(c, s) && Enabled(c, s, step)
    ensures forall n :: n in Apply(c, s, step).bodies ==> BodyAgrees(Apply(c, s, step), n)
  {
    var t := Apply(c, s, step);
    forall n | n in t.bodies ensures BodyAgrees(t, n) {
      StepBodiesAgree(c, s, step, n);
    }
  }

  lemma StepRecordings(c: Config, s: State, step: Step)
    requires Distinct(c.levels) && Inv(c, s) && Enabled(c, s, step)
    ensures Recordings(c, Apply(c, s, step))
  {
    var t := Apply(c, s, step);
    StepBodies(c, s, step);
    if step == LeaveLevel {
      LeaveRecordings(c, s);
    } else if step.Begin? {
      assert BodyAgrees(s, step.name);
      BeginRecorded(c, s, t, step.name);
    } else if step.Record? {
      assert BodyAgrees(s, step.name);
      DeployedRecorded(c, s, t, step.name);
    } else if step.Report? {
      assert BodyAgrees(s, step.name);
      ErrorRecorded(c, s, t, step.name);
    } else {
      SameRecords(c, s, t);
    }
  }

  lemma StepProgressed(c: Config, s: State, step: Step)
    requires Distinct(c.levels) && Inv(c, s) && Enabled(c, s, step)
    ensures Progressed(c, Apply(c, s, step))
  {
    match step
    case CancelDerived(n) => assert BodyAgrees(s, n);
    case Admit =>
    case _ =>
  }

  lemma StepInv(c: Config, s: State, step: Step)
    requires Distinct(c.levels) && Inv(c, s) && Enabled(c, s, step)
    ensures Inv(c, Apply(c, s, step))
  {
    StepPlaced(c, s, step);
    StepBounded(c, s, step);
    StepRecordings(c, s, step);
    StepProgressed(c, s, step);
  }

  /** Every state that a run of Run can reach satisfies the invariant. */
  lemma {:induction false} RunInv(c: Config, steps: seq<Step>)
    requires Distinct(c.levels) && Legal(c, steps)
    ensures Inv(c, After(c, steps))
    decreases |steps|
  {
    if steps == [] {
      StartInv(c);
    } else {
      RunInv(c, steps[..|steps| - 1]);
      StepInv(c, After(c, steps[..|steps| - 1]), steps[|steps| - 1]);
    }
  }
}

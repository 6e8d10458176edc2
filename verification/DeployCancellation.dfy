/** What a failed package or a cancelled context stops in a run of the scheduler, and what it does not. */
module DeployCancellation {
  import opened DeployScheduler
  import opened DeployGuarantees

  lemma LastStep(c: Config, init: seq<Step>, last: Step)
    requires Legal(c, init + [last])
    ensures Legal(c, init) && Enabled(c, After(c, init), last)
    ensures After(c, init + [last]) == Apply(c, After(c, init), last)
  {
    assert (init + [last])[..|init|] == init;
  }

  lemma Continued(c: Config, steps: seq<Step>, more: seq<Step>)
    requires more != [] && Legal(c, steps + more)
    ensures var init := more[..|more| - 1];
            && Legal(c, steps + init) && Enabled(c, After(c, steps + init), more[|more| - 1])
            && After(c, steps + more) == Apply(c, After(c, steps + init), more[|more| - 1])
  {
    var init, last := more[..|more| - 1], more[|more| - 1];
    assert steps + more == (steps + init) + [last];
    LastStep(c, steps + init, last);
  }

  lemma OneMore(c: Config, steps: seq<Step>, step: Step)
    requires Legal(c, steps) && Enabled(c, After(c, steps), step)
    ensures Legal(c, steps + [step]) && After(c, steps + [step]) == Apply(c, After(c, steps), step)
  {
    assert (steps + [step])[..|steps|] == steps;
  }

  // A cancelled derived context.

  /** Between s and t only bodies past their context check have begun. */
  ghost predicate OnlyCheckedBegin(s: State, t: State) {
    && (forall n :: n in t.begun && n !in s.begun ==> InPhase(s, n, Checked))
    && (forall n :: InPhase(t, n, Checked) ==> InPhase(s, n, Checked))
  }

  /** Between s and t at most the one package already handed to g.Go has got a body. */
  ghost predicate NoneAdmitted(s: State, t: State) {
    && t.derivedCancelled && t.level == s.level
    && (t.control == Acquiring ==> s.control == Acquiring && t.next == s.next)
    && s.next <= t.next <= s.next + (if s.control == Acquiring then 1 else 0)
  }

  ghost predicate StaysStopped(s: State, t: State) {
    NoneAdmitted(s, t) && OnlyCheckedBegin(s, t)
  }

  lemma StepNoneAdmitted(c: Config, s: State, t: State, step: Step)
    requires NoneAdmitted(s, t) && Inv(c, t) && Enabled(c, t, step)
    ensures NoneAdmitted(s, Apply(c, t, step))
  {
    if step == LeaveLevel {
      assert t.parentCancelled;
    }
  }

  lemma StepChecksNone(c: Config, s: State, t: State, step: Step)
    requires t.derivedCancelled && OnlyCheckedBegin(s, t) && Enabled(c, t, step)
    ensures OnlyCheckedBegin(s, Apply(c, t, step))
  {
  }

  lemma {:induction false} RunStaysStopped(c: Config, steps: seq<Step>, more: seq<Step>)
    requires Distinct(c.levels) && Legal(c, steps) && Legal(c, steps + more) && After(c, steps).derivedCancelled
    ensures StaysStopped(After(c, steps), After(c, steps + more))
    decreases |more|
  {
    if more == [] {
      assert steps + more == steps;
    } else {
      var init := more[..|more| - 1];
      Continued(c, steps, more);
      RunStaysStopped(c, steps, init);
      RunInv(c, steps + init);
      StepNoneAdmitted(c, After(c, steps), After(c, steps + init), more[|more| - 1]);
      StepChecksNone(c, After(c, steps), After(c, steps + init), more[|more| - 1]);
    }
  }

  /** Once the derived context is cancelled, whatever the concurrency and however the run goes on, the only packages
      still deployed are those whose body had already passed its context check: a body queued behind a failed sibling
      never deploys, at most one more body starts, no later level does, and the run cannot succeed. */
  lemma NothingQueuedIsDeployed(c: Config, steps: seq<Step>, more: seq<Step>)
    requires Distinct(c.levels) && Legal(c, steps) && Legal(c, steps + more) && After(c, steps).derivedCancelled
    ensures var s, t := After(c, steps), After(c, steps + more);
            && (forall n :: n in t.begun && n !in s.begun ==> n in s.bodies && s.bodies[n] == Checked)
            && (forall n :: n in s.bodies && s.bodies[n] == Admitted ==> n !in t.begun && n !in t.deployed)
            && t.next <= s.next + (if s.control == Acquiring then 1 else 0)
            && t.level == s.level && t.control != Done(Success)
  {
    RunStaysStopped(c, steps, more);
    RunInv(c, steps);
    RunInv(c, steps + more);
    var s, t := After(c, steps), After(c, steps + more);
    forall n | n in s.bodies && s.bodies[n] == Admitted ensures n !in t.begun && n !in t.deployed {
      assert BodyAgrees(s, n);
      BodiesAreCurrent(c, s, n);
      if n in t.bodies {
        assert BodyAgrees(t, n);
      }
    }
  }

  // A failed package.

  ghost predicate FailureStands(s: State, t: State) {
    && t.level == s.level && s.levelErrs <= t.levelErrs
    && (t.control.Done? ==> t.control == Done(Failures(t.levelErrs)))
  }

  lemma StepFailureStands(c: Config, s: State, t: State, step: Step)
    requires FailureStands(s, t) && s.levelErrs != [] && Inv(c, t) && Enabled(c, t, step)
    ensures FailureStands(s, Apply(c, t, step))
  {
  }

  lemma FailureStandsAtOnce(c: Config, s: State)
    requires s.levelErrs != [] && Inv(c, s)
    ensures FailureStands(s, s)
  {
    if s.control.Done? {
      match s.control.outcome
      case Success => assert false;
      case ParentError => assert false;
      case Failures(names) => assert names == s.levelErrs;
    }
  }

  lemma {:induction false} RunFailureStands(c: Config, steps: seq<Step>, more: seq<Step>)
    requires Distinct(c.levels) && Legal(c, steps) && Legal(c, steps + more) && After(c, steps).levelErrs != []
    ensures FailureStands(After(c, steps), After(c, steps + more))
    decreases |more|
  {
    if more == [] {
      assert steps + more == steps;
      RunInv(c, steps);
      FailureStandsAtOnce(c, After(c, steps));
    } else {
      var init := more[..|more| - 1];
      Continued(c, steps, more);
      RunFailureStands(c, steps, init);
      RunInv(c, steps + init);
      StepFailureStands(c, After(c, steps), After(c, steps + init), more[|more| - 1]);
    }
  }

  /** An error in the accumulator is never lost: no later level begins, a cancelled parent does not hide it, and Run
      ends with it among its failures. */
  lemma FailureIsReported(c: Config, steps: seq<Step>, more: seq<Step>)
    requires Distinct(c.levels) && Legal(c, steps) && Legal(c, steps + more) && After(c, steps).levelErrs != []
    ensures var s, t := After(c, steps), After(c, steps + more);
            && t.level == s.level && s.levelErrs <= t.levelErrs
            && (t.control.Done? ==> t.control == Done(Failures(t.levelErrs)))
  {
    RunFailureStands(c, steps, more);
  }

  // A cancelled parent context.

  ghost predicate StaysCancelled(s: State, t: State) {
    && t.parentCancelled && t.level == s.level
    && (t.control == LevelStart ==> s.control == LevelStart)
  }

  lemma StepStaysCancelled(c: Config, s: State, t: State, step: Step)
    requires StaysCancelled(s, t) && Enabled(c, t, step)
    ensures StaysCancelled(s, Apply(c, t, step))
    ensures Apply(c, t, step).control == Done(Success) && t.control != Done(Success) ==>
              s.control == LevelStart && s.level >= |c.levels|
  {
  }

  /** After the parent is cancelled no further level starts, and Run returns nil only if its loop was already over. */
  lemma {:induction false} CancelledRunNeverAdvances(c: Config, steps: seq<Step>, more: seq<Step>)
    requires Legal(c, steps) && Legal(c, steps + more) && After(c, steps).parentCancelled
    ensures var s, t := After(c, steps), After(c, steps + more);
            && t.parentCancelled && t.level == s.level && (t.control == LevelStart ==> s.control == LevelStart)
            && (t.control == Done(Success) ==>
                  s.control == Done(Success) || (s.control == LevelStart && s.level >= |c.levels|))
    decreases |more|
  {
    if more == [] {
      assert steps + more == steps;
    } else {
      var init := more[..|more| - 1];
      Continued(c, steps, more);
      CancelledRunNeverAdvances(c, steps, init);
      StepStaysCancelled(c, After(c, steps), After(c, steps + init), more[|more| - 1]);
    }
  }

  /** A level whose parent check is still to come when the parent is cancelled never starts: nothing at all happens any
      more except that Run returns the parent's error. */
  lemma {:induction false} CancelledLevelNeverStarts(c: Config, steps: seq<Step>, more: seq<Step>)
    requires Distinct(c.levels) && Legal(c, steps) && Legal(c, steps + more)
    requires After(c, steps).control == LevelStart && After(c, steps).parentCancelled
    requires After(c, steps).level < |c.levels|
    ensures var s, t := After(c, steps), After(c, steps + more);
            t == s || t == s.(control := Done(ParentError))
    decreases |more|
  {
    if more == [] {
      assert steps + more == steps;
    } else {
      Continued(c, steps, more);
      CancelledLevelNeverStarts(c, steps, more[..|more| - 1]);
      RunInv(c, steps);
    }
  }

  // What happened decides what is recorded.

  /** The records of n are what the calls made for n and their results say. */
  ghost predicate Accounted(s: State, steps: seq<Step>, n: string) {
    && (n in s.begun <==> Begin(n) in steps)
    && (n in s.deployed || InPhase(s, n, Succeeded) <==> DeployReturns(n, true) in steps)
    && (n in s.levelErrs || InPhase(s, n, Failed) <==> DeployReturns(n, false) in steps)
  }

  ghost predicate SameRecordsOf(s: State, t: State, n: string) {
    && (n in t.begun <==> n in s.begun) && (n in t.deployed <==> n in s.deployed)
    && (n in t.levelErrs <==> n in s.levelErrs)
    && (InPhase(t, n, Succeeded) <==> InPhase(s, n, Succeeded)) && (InPhase(t, n, Failed) <==> InPhase(s, n, Failed))
  }

  lemma OtherStepsKeep(c: Config, s: State, step: Step, n: string)
    requires Enabled(c, s, step) && (ControlStep(step) || (NamedStep(step) && step.name != n))
    ensures SameRecordsOf(s, Apply(c, s, step), n)
  {
  }

  lemma AcquireKeeps(c: Config, s: State, n: string)
    requires Distinct(c.levels) && Inv(c, s) && Enabled(c, s, AcquireSlot)
    ensures SameRecordsOf(s, Apply(c, s, AcquireSlot), n)
  {
    NextIsNew(c, s);
  }

  lemma LeaveKeeps(c: Config, s: State, n: string)
    requires Inv(c, s) && Enabled(c, s, LeaveLevel)
    ensures SameRecordsOf(s, Apply(c, s, LeaveLevel), n)
  {
    assert !InPhase(s, n, Succeeded) && !InPhase(s, n, Failed);
  }

  lemma StepAccounted(c: Config, s: State, steps: seq<Step>, step: Step, n: string)
    requires Distinct(c.levels) && Inv(c, s) && Enabled(c, s, step) && Accounted(s, steps, n)
    ensures Accounted(Apply(c, s, step), steps + [step], n)
  {
    if NamedStep(step) && step.name == n {
      NamedStepMoves(c, s, step);
      assert BodyAgrees(s, n);
      OwnStepAccounted(c, s, steps, step);
    } else {
      if step == AcquireSlot {
        AcquireKeeps(c, s, n);
      } else if step == LeaveLevel {
        LeaveKeeps(c, s, n);
      } else {
        OtherStepsKeep(c, s, step, n);
      }
      SameAccount(s, Apply(c, s, step), steps, step, n);
    }
  }

  /** A step that records and settles nothing of n. */
  lemma SameAccount(s: State, t: State, steps: seq<Step>, step: Step, n: string)
    requires Accounted(s, steps, n) && step != Begin(n) && !(step.DeployReturns? && step.name == n)
    requires SameRecordsOf(s, t, n)
    ensures Accounted(t, steps + [step], n)
  {
    assert forall x :: x in steps + [step] <==> x in steps || x == step;
  }

  lemma OwnStepAccounted(c: Config, s: State, steps: seq<Step>, step: Step)
    requires Enabled(c, s, step) && NamedStep(step)
    requires step.name in s.bodies && BodyAgrees(s, step.name) && Accounted(s, steps, step.name)
    ensures Accounted(Apply(c, s, step), steps + [step], step.name)
  {
    assert forall x :: x in steps + [step] <==> x in steps || x == step;
  }

  lemma {:induction false} RunAccounted(c: Config, steps: seq<Step>, n: string)
    requires Distinct(c.levels) && Legal(c, steps)
    ensures Accounted(After(c, steps), steps, n)
    decreases |steps|
  {
    if steps != [] {
      var init, last := steps[..|steps| - 1], steps[|steps| - 1];
      RunAccounted(c, init, n);
      RunInv(c, init);
      StepAccounted(c, After(c, init), init, last, n);
      assert steps == init + [last];
    }
  }

  lemma StepParentCancelled(c: Config, s: State, step: Step)
    requires Enabled(c, s, step)
    ensures Apply(c, s, step).parentCancelled <==> s.parentCancelled || step == CancelParent
  {
  }

  lemma {:induction false} ParentCancelledByStep(c: Config, steps: seq<Step>)
    requires Legal(c, steps)
    ensures After(c, steps).parentCancelled <==> CancelParent in steps
    decreases |steps|
  {
    if steps != [] {
      var init, last := steps[..|steps| - 1], steps[|steps| - 1];
      ParentCancelledByStep(c, init);
      StepParentCancelled(c, After(c, init), last);
      assert steps == init + [last];
    }
  }

  /** A package is recorded as deployed exactly when its deployment returned nil and as failed exactly when it returned
      an error, apart from results that are still on their way; the parent counts as cancelled exactly after its
      cancellation. */
  lemma RecordsFollowResults(c: Config, steps: seq<Step>, n: string)
    requires Distinct(c.levels) && Legal(c, steps)
    ensures var s := After(c, steps);
            && (n in s.begun <==> Begin(n) in steps)
            && (n in s.deployed || InPhase(s, n, Succeeded) <==> DeployReturns(n, true) in steps)
            && (n in s.levelErrs || InPhase(s, n, Failed) <==> DeployReturns(n, false) in steps)
            && (s.parentCancelled <==> CancelParent in steps)
  {
    RunAccounted(c, steps, n);
    ParentCancelledByStep(c, steps);
  }

  /** Run returns nil exactly when it is over with every level done and no deployment failed; it returns the joined
      errors of exactly the deployments that failed when there is one; and only otherwise the parent's error. */
  lemma ResultFollowsEvents(c: Config, steps: seq<Step>)
    requires Distinct(c.levels) && Legal(c, steps) && After(c, steps).control.Done?
    ensures var outcome := After(c, steps).control.outcome;
            && (outcome.Failures? <==> exists n :: DeployReturns(n, false) in steps)
            && (outcome.Failures? ==> forall n :: n in outcome.names <==> DeployReturns(n, false) in steps)
            && (outcome.ParentError? ==> CancelParent in steps)
            && (outcome.Success? ==> After(c, steps).level == |c.levels|)
    ensures forall n :: n in After(c, steps).deployed <==> DeployReturns(n, true) in steps
  {
    var s := After(c, steps);
    RunInv(c, steps);
    forall n
      ensures n in s.deployed <==> DeployReturns(n, true) in steps
      ensures n in s.levelErrs <==> DeployReturns(n, false) in steps
    {
      RecordsFollowResults(c, steps, n);
    }
    RecordsFollowResults(c, steps, "");
    if s.control.outcome.Failures? {
      assert DeployReturns(s.levelErrs[0], false) in steps;
    }
  }

  // What is not stopped.

  /** A deployment under way may end either way, the parent may be cancelled at any time before Run returns, and that
      cancellation may reach the derived context at once. */
  lemma OutsideEventsArePossible(c: Config, steps: seq<Step>, n: string, ok: bool)
    requires Legal(c, steps)
    ensures n in Running(After(c, steps)) ==> Legal(c, steps + [DeployReturns(n, ok)])
    ensures !After(c, steps).control.Done? && CancelParent !in steps ==>
              Legal(c, steps + [CancelParent])
    ensures After(c, steps).control in {Admitting, Acquiring, Waiting} && CancelParent in steps ==>
              After(c, steps).derivedCancelled || Legal(c, steps + [PropagateCancel])
  {
    ParentCancelledByStep(c, steps);
    if After(c, steps).control in {Admitting, Acquiring, Waiting} && CancelParent in steps
       && !After(c, steps).derivedCancelled {
      OneMore(c, steps, PropagateCancel);
    }
    if n in Running(After(c, steps)) {
      OneMore(c, steps, DeployReturns(n, ok));
    }
    if !After(c, steps).control.Done? && CancelParent !in steps {
      OneMore(c, steps, CancelParent);
    }
  }

  /** The four steps that let the next package of a level run. */
  lemma NextStartsFrom(c: Config, s: State, n: string)
    requires Distinct(c.levels) && Inv(c, s)
    requires s.control == Admitting && !s.derivedCancelled && s.held < c.limit && s.next < |CurrentLevel(c, s)|
    requires n == CurrentLevel(c, s)[s.next]
    ensures Enabled(c, s, Admit) && Enabled(c, Apply(c, s, Admit), AcquireSlot)
    ensures var r := Apply(c, Apply(c, s, Admit), AcquireSlot);
            && Enabled(c, r, CheckContext(n)) && Enabled(c, Apply(c, r, CheckContext(n)), Begin(n))
            && Apply(c, Apply(c, r, CheckContext(n)), Begin(n)) ==
               s.(bodies := s.bodies[n := Deploying], next := s.next + 1, held := s.held + 1, begun := s.begun + [n])
  {
    var r := Apply(c, Apply(c, s, Admit), AcquireSlot);
    assert r.bodies == s.bodies[n := Admitted];
    assert s.bodies[n := Admitted][n := Checked][n := Deploying] == s.bodies[n := Deploying];
  }

  ghost predicate CanAdmit(c: Config, s: State, k: nat) {
    && s.control == Admitting && !s.derivedCancelled
    && s.held + k <= c.limit && s.next + k <= |CurrentLevel(c, s)|
  }

  ghost function NextStarted(c: Config, s: State): State
    requires s.next < |CurrentLevel(c, s)|
  {
    var n := CurrentLevel(c, s)[s.next];
    s.(bodies := s.bodies[n := Deploying], next := s.next + 1, held := s.held + 1, begun := s.begun + [n])
  }

  lemma NextStarts(c: Config, steps: seq<Step>) returns (longer: seq<Step>)
    requires Distinct(c.levels) && Legal(c, steps) && CanAdmit(c, After(c, steps), 1)
    ensures steps <= longer && Legal(c, longer) && After(c, longer) == NextStarted(c, After(c, steps))
  {
    var s := After(c, steps);
    var n := CurrentLevel(c, s)[s.next];
    RunInv(c, steps);
    NextIsNew(c, s);
    NextStartsFrom(c, s, n);
    OneMore(c, steps, Admit);
    OneMore(c, steps + [Admit], AcquireSlot);
    OneMore(c, steps + [Admit] + [AcquireSlot], CheckContext(n));
    OneMore(c, steps + [Admit] + [AcquireSlot] + [CheckContext(n)], Begin(n));
    longer := steps + [Admit] + [AcquireSlot] + [CheckContext(n)] + [Begin(n)];
  }

  /** The state in which k more packages have started. */
  ghost function Filled(c: Config, s: State, k: nat): (t: State)
    requires s.next + k <= |CurrentLevel(c, s)|
    ensures t.control == s.control && t.level == s.level && t.next == s.next + k && t.held == s.held + k
    ensures t.derivedCancelled == s.derivedCancelled
  {
    if k == 0 then s else NextStarted(c, Filled(c, s, k - 1))
  }

  /** Everyone deploying at s still is at t, and so are the packages of the level up to t's. */
  ghost predicate AllDeploying(c: Config, s: State, t: State)
    requires s.next <= t.next <= |CurrentLevel(c, s)|
  {
    && (forall n :: InPhase(s, n, Deploying) ==> InPhase(t, n, Deploying))
    && (forall i :: s.next <= i < t.next ==> InPhase(t, CurrentLevel(c, s)[i], Deploying))
  }

  lemma {:induction false} FilledDeploys(c: Config, s: State, k: nat)
    requires s.next + k <= |CurrentLevel(c, s)|
    ensures AllDeploying(c, s, Filled(c, s, k))
  {
    if k > 0 {
      FilledDeploys(c, s, k - 1);
    }
  }

  lemma FilledOnce(c: Config, s: State, most: seq<Step>, k: nat) returns (longer: seq<Step>)
    requires Distinct(c.levels) && Legal(c, most) && k > 0 && CanAdmit(c, s, k)
    requires After(c, most) == Filled(c, s, k - 1)
    ensures most <= longer && Legal(c, longer) && After(c, longer) == Filled(c, s, k)
  {
    longer := NextStarts(c, most);
  }

  lemma {:induction false} SlotsFill(c: Config, s: State, steps: seq<Step>, j: nat, k: nat)
    returns (longer: seq<Step>)
    requires Distinct(c.levels) && j <= k && CanAdmit(c, s, k)
    requires Legal(c, steps) && After(c, steps) == Filled(c, s, j)
    ensures steps <= longer && Legal(c, longer) && After(c, longer) == Filled(c, s, k)
    decreases k - j
  {
    if j == k {
      longer := steps;
    } else {
      var next := FilledOnce(c, s, steps, j + 1);
      longer := SlotsFill(c, s, next, j + 1, k);
    }
  }

  /** The limit is also reached: while the context is live, k free slots let the next k packages of the level be
      deployed at the same time, in addition to those already running. */
  lemma SlotsRunInParallel(c: Config, steps: seq<Step>, k: nat) returns (longer: seq<Step>)
    requires Distinct(c.levels) && Legal(c, steps)
    requires var s := After(c, steps);
             && s.control == Admitting && !s.derivedCancelled
             && s.held + k <= c.limit && s.next + k <= |CurrentLevel(c, s)|
    ensures steps <= longer && Legal(c, longer)
    ensures var s, t := After(c, steps), After(c, longer);
            && t.control == s.control && t.level == s.level && t.next == s.next + k
            && (forall n :: InPhase(s, n, Deploying) ==> InPhase(t, n, Deploying))
            && (forall i :: s.next <= i < t.next ==> InPhase(t, CurrentLevel(c, s)[i], Deploying))
  {
    longer := SlotsFill(c, After(c, steps), steps, 0, k);
    FilledDeploys(c, After(c, steps), k);
    assert AllDeploying(c, After(c, steps), After(c, longer));
  }
}

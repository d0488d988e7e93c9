/** The V2ray controller: one custom resource, one deployment. Passes converge whatever fails in between, and deletion
    can be resumed from wherever a pass stopped. */
module V2rayDeployment {
  import opened Kube

  datatype V2ray = V2ray(size: int, finalizer: bool, deleting: bool, conditions: Conditions)

  /** The stored object and the replicas of its deployment, if it has one. */
  datatype System = System(stored: Option<V2ray>, deployment: Option<int>)

  datatype Call =
    | GetObject | InitStatus | GetAfterInit | UpdateFinalizer
    | StatusFinalizing | GetAfterFinalize | StatusFinalized | UpdateRelease
    | GetDeployment | BuildDeployment | StatusBuildFailed | CreateDeployment
    | UpdateDeployment | GetAfterResize | StatusResizeFailed | StatusAvailable

  type Oracle = Call -> Answer

  ghost predicate ErrorFree(ok: Oracle) {
    forall c :: ok(c) == Fine
  }

  function Report(o: V2ray, answer: Answer, condition: Condition, status: Status): V2ray {
    if answer == Fine then o.(conditions := o.conditions[condition := status]) else o
  }

  /** Status initialisation and finalizer; the flag says whether the pass goes on. */
  function Prepare(o: V2ray, ok: Oracle): (V2ray, bool) {
    var blank := o.conditions == map[];
    var o1 := if blank then Report(o, ok(InitStatus), Available, Unknown) else o;
    if blank && (ok(InitStatus) != Fine || ok(GetAfterInit) != Fine) then (o1, false)
    else if o1.finalizer then (o1, true)
    else if ok(UpdateFinalizer) != Fine then (o1, false)
    else (o1.(finalizer := true), true)
  }

  /** The deletion half of a pass. */
  function Release(o: V2ray, ok: Oracle): Option<V2ray> {
    if ok(StatusFinalizing) != Fine then Some(o)
    else
      var o1 := Report(o, Fine, Degraded, Unknown);
      if ok(GetAfterFinalize) != Fine || ok(StatusFinalized) != Fine then Some(o1)
      else
        var o2 := Report(o1, Fine, Degraded, IsTrue);
        if ok(UpdateRelease) != Fine then Some(o2) else None
  }

  predicate Mismatch(size: int, replicas: int) {
    size != 0 && replicas != size
  }

  /** The live half of a pass: create, resize, or report. */
  function Settle(s: System, o: V2ray, ok: Oracle): System {
    if ok(GetDeployment) != Fine then s.(stored := Some(o))
    else
      match s.deployment
      case None =>
        if ok(BuildDeployment) != Fine then s.(stored := Some(Report(o, ok(StatusBuildFailed), Available, IsFalse)))
        else System(Some(o), if ok(CreateDeployment) == Fine then Some(o.size) else None)
      case Some(replicas) =>
        if !Mismatch(o.size, replicas) then s.(stored := Some(Report(o, ok(StatusAvailable), Available, IsTrue)))
        else if ok(UpdateDeployment) == Fine then System(Some(o), Some(o.size))
        else if ok(GetAfterResize) != Fine then s.(stored := Some(o))
        else s.(stored := Some(Report(o, ok(StatusResizeFailed), Available, IsFalse)))
  }

  function Pass(s: System, ok: Oracle): System {
    if s.stored.None? || ok(GetObject) != Fine then s
    else
      var (o, goOn) := Prepare(s.stored.value, ok);
      if !goOn then s.(stored := Some(o))
      else if o.deleting then s.(stored := Release(o, ok))
      else Settle(s, o, ok)
  }

  // --- the error a pass returns ---

  function ReleaseFails(ok: Oracle): bool {
    ok(StatusFinalizing) != Fine || ok(GetAfterFinalize) != Fine
    || ok(StatusFinalized) != Fine || ok(UpdateRelease) != Fine
  }

  function SettleFails(s: System, o: V2ray, ok: Oracle): bool {
    if ok(GetDeployment) != Fine then true
    else
      match s.deployment
      case None => ok(BuildDeployment) != Fine || ok(CreateDeployment) != Fine
      case Some(replicas) =>
        if Mismatch(o.size, replicas) then ok(UpdateDeployment) != Fine else ok(StatusAvailable) != Fine
  }

  /** Whether the pass returns an error, which asks for another try. */
  function PassFails(s: System, ok: Oracle): bool {
    if s.stored.None? then false
    else if ok(GetObject) != Fine then ok(GetObject) != NotFound
    else
      var (o, goOn) := Prepare(s.stored.value, ok);
      !goOn || if o.deleting then ReleaseFails(ok) else SettleFails(s, o, ok)
  }

  // --- the controller ---

  class Reconciler {
    var stored: Option<V2ray>
    var deployment: Option<int>

    constructor (stored: Option<V2ray>, deployment: Option<int>)
      ensures State() == System(stored, deployment)
    {
      this.stored, this.deployment := stored, deployment;
    }

    function State(): System
      reads this
    {
      System(stored, deployment)
    }

    method Update(o: V2ray, answer: Answer) returns (failed: bool)
      requires stored.Some?
      modifies this`stored
      ensures failed <==> answer != Fine
      ensures stored ==
              if failed then old(stored)
              else if o.deleting && !o.finalizer then None
              else Some(o.(conditions := old(stored).value.conditions))
    {
      failed := answer != Fine;
      if !failed {
        stored := if o.deleting && !o.finalizer then None else Some(o.(conditions := stored.value.conditions));
      }
    }

    method UpdateStatus(o: V2ray, answer: Answer) returns (failed: bool)
      requires stored.Some?
      modifies this`stored
      ensures failed <==> answer != Fine
      ensures stored == if failed then old(stored) else Some(old(stored).value.(conditions := o.conditions))
    {
      failed := answer != Fine;
      if !failed {
        stored := Some(stored.value.(conditions := o.conditions));
      }
    }

    /** One reconcile pass. A marked object without the finalizer is not in the store. */
    method Reconcile(ok: Oracle) returns (failed: bool)
      requires stored.Some? && stored.value.deleting ==> stored.value.finalizer
      modifies this
      ensures State() == Pass(old(State()), ok)
      ensures failed == PassFails(old(State()), ok)
    {
      if stored.None? {
        return false;
      }
      if ok(GetObject) != Fine {
        return ok(GetObject) != NotFound;
      }
      var o := stored.value;
      if o.conditions == map[] {
        o := o.(conditions := o.conditions[Available := Unknown]);
        failed := UpdateStatus(o, ok(InitStatus));
        if failed || ok(GetAfterInit) != Fine {
          return true;
        }
        o := stored.value;
      }
      if !o.finalizer {
        o := o.(finalizer := true);
        failed := Update(o, ok(UpdateFinalizer));
        if failed {
          return true;
        }
      }
      if o.deleting {
        failed := Finalize(o, ok);
      } else {
        failed := SettleDeployment(o, ok);
      }
    }

    method Finalize(fetched: V2ray, ok: Oracle) returns (failed: bool)
      requires stored == Some(fetched) && fetched.deleting && fetched.finalizer
      modifies this`stored
      ensures stored == Release(fetched, ok)
      ensures failed == ReleaseFails(ok)
    {
      var o := fetched.(conditions := fetched.conditions[Degraded := Unknown]);
      failed := UpdateStatus(o, ok(StatusFinalizing));
      if failed || ok(GetAfterFinalize) != Fine {
        return true;
      }
      o := stored.value;
      o := o.(conditions := o.conditions[Degraded := IsTrue]);
      failed := UpdateStatus(o, ok(StatusFinalized));
      if failed {
        return true;
      }
      o := o.(finalizer := false);
      failed := Update(o, ok(UpdateRelease));
    }

    method SettleDeployment(fetched: V2ray, ok: Oracle) returns (failed: bool)
      requires stored == Some(fetched)
      modifies this
      ensures State() == Settle(old(State()), fetched, ok)
      ensures failed == SettleFails(old(State()), fetched, ok)
    {
      var o := fetched;
      if ok(GetDeployment) != Fine {
        return true;
      }
      if deployment.None? {
        if ok(BuildDeployment) != Fine {
          o := o.(conditions := o.conditions[Available := IsFalse]);
          var _ := UpdateStatus(o, ok(StatusBuildFailed));
          return true;
        }
        if ok(CreateDeployment) != Fine {
          return true;
        }
        deployment := Some(o.size);
        return false;
      }
      if o.size != 0 && deployment.value != o.size {
        if ok(UpdateDeployment) != Fine {
          if ok(GetAfterResize) != Fine {
            return true;
          }
          o := stored.value;
          o := o.(conditions := o.conditions[Available := IsFalse]);
          var _ := UpdateStatus(o, ok(StatusResizeFailed));
          return true;
        }
        deployment := Some(o.size);
        return false;
      }
      o := o.(conditions := o.conditions[Available := IsTrue]);
      failed := UpdateStatus(o, ok(StatusAvailable));
    }
  }

  // --- convergence ---

  ghost predicate Live(s: System) {
    s.stored.Some? && !s.stored.value.deleting
  }

  predicate IsAvailable(o: V2ray) {
    Available in o.conditions && o.conditions[Available] == IsTrue
  }

  /** How far a live object is from its goal. */
  function Distance(s: System): nat
    requires s.stored.Some?
  {
    var o := s.stored.value;
    if s.deployment.None? || Mismatch(o.size, s.deployment.value) then 2
    else if !IsAvailable(o) || !o.finalizer then 1
    else 0
  }

  /** The goal: Available, finalizer in place, a deployment with the wanted number of replicas. */
  predicate AtGoal(s: System) {
    && s.stored.Some? && s.deployment.Some?
    && IsAvailable(s.stored.value) && s.stored.value.finalizer
    && (s.stored.value.size == 0 || s.deployment.value == s.stored.value.size)
  }

  lemma DistanceZero(s: System)
    requires Live(s)
    ensures Distance(s) == 0 <==> AtGoal(s)
  {
  }

  /** No pass takes a live object further away, whatever fails; one that gets to read it and returns no error brings it
      nearer; and at the goal no pass changes anything, even one that fails. */
  lemma PassMovesCloser(s: System, ok: Oracle)
    requires Live(s)
    ensures var end := Pass(s, ok);
            && Live(end) && end.stored.value.size == s.stored.value.size
            && Distance(end) <= Distance(s)
            && (ok(GetObject) == Fine && !PassFails(s, ok) && Distance(s) > 0 ==> Distance(end) < Distance(s))
            && (Distance(s) == 0 ==> end == s)
            && (ErrorFree(ok) ==> !PassFails(s, ok))
  {
    var o := s.stored.value;
    if Distance(s) == 0 {
      assert o.conditions != map[];
      assert o.conditions[Available := IsTrue] == o.conditions;
    }
  }

  // --- what is written and reported ---

  /** Nothing is written except by a call that was answered. */
  lemma PassWrites(s: System, ok: Oracle)
    requires s.stored.Some?
    ensures var o, end := s.stored.value, Pass(s, ok);
            && (end.stored.None? ==> o.deleting && ok(UpdateRelease) == Fine)
            && (end.stored.Some? ==>
                  && end.stored.value.size == o.size && end.stored.value.deleting == o.deleting
                  && (end.stored.value.finalizer != o.finalizer ==>
                        end.stored.value.finalizer && ok(UpdateFinalizer) == Fine))
            && (end.deployment != s.deployment ==>
                  && !o.deleting && end.deployment == Some(o.size)
                  && ok(GetObject) == ok(GetDeployment) == Fine
                  && if s.deployment.None? then ok(BuildDeployment) == ok(CreateDeployment) == Fine
                     else o.size != 0 && ok(UpdateDeployment) == Fine)
  {
  }

  predicate AvailableIs(o: V2ray, status: Status) {
    Available in o.conditions && o.conditions[Available] == status
  }

  /** Available True is never reported without its deployment: a pass over a live object that ends with Available True
      found it so, or found a deployment with the wanted replicas. */
  lemma AvailableMeansDeployed(s: System, ok: Oracle)
    requires Live(s)
    ensures AvailableIs(Pass(s, ok).stored.value, IsTrue) ==>
              || AvailableIs(s.stored.value, IsTrue)
              || (s.deployment.Some? && (s.stored.value.size == 0 || s.deployment.value == s.stored.value.size))
  {
  }

  /** The calls before the deployment is looked at. */
  predicate Reaches(o: V2ray, ok: Oracle) {
    && ok(GetObject) == Fine
    && (o.conditions == map[] ==> ok(InitStatus) == ok(GetAfterInit) == Fine)
    && (!o.finalizer ==> ok(UpdateFinalizer) == Fine)
  }

  /** A deployment that cannot be built or resized is reported: Available becomes False, and the pass returns an
      error. */
  lemma FailureIsReported(s: System, ok: Oracle)
    requires Live(s) && Reaches(s.stored.value, ok) && ok(GetDeployment) == Fine
    requires || (s.deployment.None? && ok(BuildDeployment) != Fine && ok(StatusBuildFailed) == Fine)
             || (&& s.deployment.Some? && s.stored.value.size != 0 && s.deployment.value != s.stored.value.size
                 && ok(UpdateDeployment) != Fine && ok(GetAfterResize) == Fine && ok(StatusResizeFailed) == Fine)
    ensures AvailableIs(Pass(s, ok).stored.value, IsFalse)
    ensures Pass(s, ok).deployment == s.deployment && PassFails(s, ok)
  {
  }

  /** Where Available changes in a live pass, its write went through - after a failed resize only once the object was
      read again. */
  lemma AvailableIsWritten(s: System, ok: Oracle)
    requires Live(s)
    ensures var o, end := s.stored.value, Pass(s, ok).stored.value;
            && (AvailableIs(end, IsTrue) ==> AvailableIs(o, IsTrue) || ok(StatusAvailable) == Fine)
            && (AvailableIs(end, IsFalse) ==>
                  || AvailableIs(o, IsFalse)
                  || (s.deployment.None? && ok(BuildDeployment) != Fine && ok(StatusBuildFailed) == Fine)
                  || (s.deployment.Some? && ok(UpdateDeployment) != Fine && ok(GetAfterResize) == Fine
                      && ok(StatusResizeFailed) == Fine))
            && (AvailableIs(end, Unknown) ==>
                  AvailableIs(o, Unknown) || (o.conditions == map[] && ok(InitStatus) == Fine))
            && (Available !in end.conditions ==> Available !in o.conditions)
            && (Degraded in end.conditions <==> Degraded in o.conditions)
  {
  }

  /** A call that fails before or at the deployment is returned as an error, and leaves the deployment alone. */
  lemma FailedCallIsReturned(s: System, ok: Oracle)
    requires s.stored.Some?
    ensures ok(GetObject) != Fine ==> Pass(s, ok) == s && (PassFails(s, ok) <==> ok(GetObject) == Broken)
    ensures ok(GetObject) == Fine && !Reaches(s.stored.value, ok) ==>
              PassFails(s, ok) && Pass(s, ok).deployment == s.deployment
    ensures Live(s) && Reaches(s.stored.value, ok) ==>
              (PassFails(s, ok) <==>
                 || ok(GetDeployment) != Fine
                 || (s.deployment.None? && (ok(BuildDeployment) != Fine || ok(CreateDeployment) != Fine))
                 || (s.deployment.Some? && Mismatch(s.stored.value.size, s.deployment.value)
                     && ok(UpdateDeployment) != Fine)
                 || (&& s.deployment.Some? && !Mismatch(s.stored.value.size, s.deployment.value)
                     && ok(StatusAvailable) != Fine))
    ensures Pass(s, ok).stored.None? ==> !PassFails(s, ok)
  {
  }

  /** A marked object reports Degraded Unknown until its release is written down, and True only after it was read
      again. */
  lemma DegradedIsOrdered(s: System, ok: Oracle)
    requires s.stored.Some? && s.stored.value.deleting && Reaches(s.stored.value, ok) && Pass(s, ok).stored.Some?
    ensures var end := Pass(s, ok).stored.value.conditions;
            if ok(StatusFinalizing) != Fine then
              end == if s.stored.value.conditions == map[] then map[Available := Unknown] else s.stored.value.conditions
            else if ok(GetAfterFinalize) != Fine || ok(StatusFinalized) != Fine
            then Degraded in end && end[Degraded] == Unknown
            else Degraded in end && end[Degraded] == IsTrue
    ensures PassFails(s, ok)
  {
  }

  function Passes(s: System, oks: seq<Oracle>): System
    decreases |oks|
  {
    if oks == [] then s else Passes(Pass(s, oks[0]), oks[1..])
  }

  /** How many passes of a run get to read the object and return no error. */
  function Good(s: System, oks: seq<Oracle>): nat
    decreases |oks|
  {
    if oks == [] then 0
    else (if oks[0](GetObject) == Fine && !PassFails(s, oks[0]) then 1 else 0) + Good(Pass(s, oks[0]), oks[1..])
  }

  lemma {:induction false} RunMovesCloser(s: System, oks: seq<Oracle>)
    requires Live(s)
    ensures Live(Passes(s, oks)) && Passes(s, oks).stored.value.size == s.stored.value.size
    ensures Distance(s) <= Good(s, oks) ==> Distance(Passes(s, oks)) == 0
    decreases |oks|
  {
    if oks != [] {
      PassMovesCloser(s, oks[0]);
      RunMovesCloser(Pass(s, oks[0]), oks[1..]);
    }
  }

  /** From any live state, every run with two passes in it that read the object and return no error, wherever they are
      and whatever fails in the others, ends at the goal - Available, finalizer in place, the wanted replicas - and
      stays there. */
  lemma TwoGoodPassesSuffice(s: System, oks: seq<Oracle>, more: seq<Oracle>)
    requires Live(s) && Good(s, oks) >= 2
    ensures var end := Passes(s, oks);
            && Live(end) && end.stored.value.size == s.stored.value.size
            && AtGoal(end)
            && Passes(end, more) == end
  {
    RunMovesCloser(s, oks);
    DistanceZero(Passes(s, oks));
    StaysAtGoal(Passes(s, oks), more);
  }

  lemma {:induction false} StaysAtGoal(s: System, oks: seq<Oracle>)
    requires Live(s) && Distance(s) == 0
    ensures Passes(s, oks) == s
    decreases |oks|
  {
    if oks != [] {
      PassMovesCloser(s, oks[0]);
      StaysAtGoal(s, oks[1..]);
    }
  }

  // --- deletion ---

  datatype Step = Reconcile(ok: Oracle) | MarkDeleted | Resize(size: int) | ChangeDeployment(deployment: Option<int>)

  function Take(s: System, step: Step): System {
    match step
    case Reconcile(ok) => Pass(s, ok)
    case MarkDeleted =>
      if s.stored.None? then s
      else s.(stored := if s.stored.value.finalizer then Some(s.stored.value.(deleting := true)) else None)
    case Resize(size) => if s.stored.None? then s else s.(stored := Some(s.stored.value.(size := size)))
    case ChangeDeployment(d) => s.(deployment := d)
  }

  function Run(s: System, steps: seq<Step>): System
    decreases |steps|
  {
    if steps == [] then s
    else
      var n := |steps| - 1;
      Take(Run(s, steps[..n]), steps[n])
  }

  ghost predicate MarkedHasFinalizer(s: System) {
    s.stored.Some? && s.stored.value.deleting ==> s.stored.value.finalizer
  }

  lemma {:induction false} RunKeepsFinalizer(s: System, steps: seq<Step>)
    requires MarkedHasFinalizer(s)
    ensures MarkedHasFinalizer(Run(s, steps))
    decreases |steps|
  {
    if steps != [] {
      RunKeepsFinalizer(s, steps[..|steps| - 1]);
    }
  }

  /** The same pass with its last write cut off. */
  function CutRelease(ok: Oracle): Oracle {
    c => if c == UpdateRelease then Broken else ok(c)
  }

  /** Deletion is ordered: a pass makes the object disappear only if it was marked, and only after the same pass has
      stored Degraded True; the deployment is left to its owner reference. */
  lemma ReleaseIsOrdered(s: System, ok: Oracle)
    requires s.stored.Some? && Pass(s, ok).stored.None?
    ensures s.stored.value.deleting
    ensures var before := Pass(s, CutRelease(ok));
            && before.stored.Some?
            && before.stored.value.finalizer && before.stored.value.deleting
            && Degraded in before.stored.value.conditions && before.stored.value.conditions[Degraded] == IsTrue
    ensures Pass(s, ok).deployment == s.deployment
  {
  }

  /** Deletion is resumable: at whatever point of whatever run an object is marked and still there, one error-free pass
      completes its deletion, and no pass touches the deployment of a marked object. */
  lemma {:induction false} DeletionIsResumable(s: System, steps: seq<Step>, ok: Oracle)
    requires MarkedHasFinalizer(s)
    requires Run(s, steps).stored.Some? && Run(s, steps).stored.value.deleting
    ensures ErrorFree(ok) ==> Run(s, steps + [Reconcile(ok)]).stored.None?
    ensures Run(s, steps + [Reconcile(ok)]).deployment == Run(s, steps).deployment
  {
    RunKeepsFinalizer(s, steps);
    assert (steps + [Reconcile(ok)])[..|steps|] == steps;
  }
}

/** lockrun.c, the lock: N instances on one lock file, each trying for the lock, launching its command and waiting
    for it, in any interleaving. */
module LockrunProtocol {
  import opened Wrappers
  import opened LockrunArgs

  const EXIT_SUCCESS: nat := 0
  const EXIT_FAILURE: nat := 1

  /** What an instance does next. */
  datatype Pc =
    | Opening | Trying | Refused | Sleeping   // on the way to the lock
    | Holding | Waiting | Reaped              // with the lock: to fork, in `waitpid`, to exit
    | Exited

  /** The process an instance launched; `ran` tells whether it ever became the command. */
  datatype Child = NotYet | Forked | Running | Gone(ran: bool, status: Status)

  /** How a process ended: by `exit`, or by a signal. */
  datatype Status = Code(code: nat) | Signalled

  /** `attempts` as the source counts them, `calls` the lock calls made, `code` the exit status once there is one. */
  datatype Instance = Instance(settings: Settings, pc: Pc, attempts: nat, calls: nat, child: Child, code: nat)
  {
    predicate Alive() { child.Forked? || child.Running? }
    predicate HasLock() { pc.Holding? || pc.Waiting? || pc.Reaped? }
  }

  /** The instances, and the one the kernel has granted the lock on the file. */
  datatype System = System(all: seq<Instance>, holder: Option<nat>)

  /** A step of instance `pid` or, with `child`, of the process it launched. `fails` makes the system call of that
      step fail; `status` is how the child ends. */
  datatype Event = Event(pid: nat, child: bool, fails: bool, status: Status)

  ghost predicate Enabled(sys: System, e: Event) {
    && e.pid < |sys.all|
    && var i := sys.all[e.pid];
       if e.child then i.Alive()
       else if i.pc.Waiting? then i.child.Gone?
       else !i.pc.Exited?
  }

  /** The exit of an instance: the kernel drops its lock. */
  function Leave(sys: System, pid: nat, code: nat): System
    requires pid < |sys.all|
  {
    System(sys.all[pid := sys.all[pid].(pc := Exited, code := code)],
           if sys.holder == Some(pid) then None else sys.holder)
  }

  function Put(sys: System, pid: nat, i: Instance): System
    requires pid < |sys.all|
  {
    sys.(all := sys.all[pid := i])
  }

  function ExitCode(status: Status): nat { if status.Code? then status.code % 256 else EXIT_FAILURE }

  /** A command's status comes out as `waitpid` tells it: the eight bits of its code as they are, and 1 for a signal. */
  ghost predicate Reflects(code: nat, status: Status) {
    match status
    case Code(c) => code < 256 && (c < 256 ==> code == c) && (c - code) % 256 == 0
    case Signalled => code == 1
  }

  lemma ExitCodeReflects(status: Status)
    ensures Reflects(ExitCode(status), status)
    ensures ExitCode(status) == EXIT_SUCCESS <==> EndsWell(status)
  {
  }

  /** The status of a process that exited with success, as `waitpid` tells it. */
  predicate EndsWell(status: Status) { status.Code? && status.code % 256 == 0 }

  function Step(sys: System, e: Event): System
    requires e.pid < |sys.all|
  {
    var pid, i := e.pid, sys.all[e.pid];
    if e.child then
      if i.child.Forked? && !e.fails then Put(sys, pid, i.(child := Running))   // `execvp`
      // behind a failed `execvp` the process runs into `exit(rc)`, and `rc` was never assigned
      else Put(sys, pid, i.(child := Gone(i.child.Running?, e.status)))
    else
      match i.pc
      case Opening => if e.fails then Leave(sys, pid, EXIT_FAILURE) else Put(sys, pid, i.(pc := Trying))
      case Trying =>
        if sys.holder.Some? && sys.holder != Some(pid) then Put(sys, pid, i.(pc := Refused, calls := i.calls + 1))
        else System(sys.all[pid := i.(pc := Holding, calls := i.calls + 1)], Some(pid))
      case Refused =>
        var attempts := i.attempts + 1;
        var counted := Put(sys, pid, i.(attempts := attempts));
        if !i.settings.wait then Leave(counted, pid, if i.settings.quiet then EXIT_SUCCESS else EXIT_FAILURE)
        else if i.settings.retries > 0 && attempts >= i.settings.retries then Leave(counted, pid, EXIT_FAILURE)
        else Put(sys, pid, i.(pc := Sleeping, attempts := attempts))
      case Sleeping => Put(sys, pid, i.(pc := Trying))
      case Holding =>
        if e.fails then Leave(sys, pid, EXIT_FAILURE) else Put(sys, pid, i.(pc := Waiting, child := Forked))
      case Waiting => Put(sys, pid, i.(pc := Reaped))
      case Reaped => Leave(sys, pid, if i.child.Gone? then ExitCode(i.child.status) else EXIT_FAILURE)
      case Exited => sys
  }

  ghost predicate Feasible(sys: System, es: seq<Event>)
    decreases |es|
  {
    es == [] || (Enabled(sys, es[0]) && Feasible(Step(sys, es[0]), es[1..]))
  }

  ghost function Run(sys: System, es: seq<Event>): System
    requires Feasible(sys, es)
    decreases |es|
  {
    if es == [] then sys else Run(Step(sys, es[0]), es[1..])
  }

  /** One new instance for each command line. */
  function Start(all: seq<Settings>): System {
    System(seq(|all|, i requires 0 <= i < |all| => Instance(all[i], Opening, 0, 0, NotYet, 0)), None)
  }

  // ----- the invariant -----

  /** The lock calls an instance may have made. */
  ghost predicate Tried(i: Instance) {
    && (i.pc.Opening? ==> i.calls == i.attempts == 0)
    && (i.pc.Trying? || i.pc.Sleeping? ==> i.calls == i.attempts)
    && (i.pc.Refused? || i.HasLock() ==> i.calls == i.attempts + 1)
    && (i.settings.retries > 0 && !i.pc.Exited? ==> i.attempts < i.settings.retries)
    && (i.settings.retries > 0 && i.pc.Exited? ==> i.calls <= i.settings.retries)
    && (!i.settings.wait ==> i.calls <= 1 && (i.attempts == 0 || i.pc.Exited?))
  }

  /** What the launched process and the exit status have to do with each other. */
  ghost predicate Accounted(i: Instance) {
    && (i.Alive() ==> i.pc.Waiting?)
    && (i.pc.Waiting? ==> !i.child.NotYet?)
    && (i.pc.Reaped? ==> i.child.Gone?)
    && (i.child.Gone? ==> i.pc.Waiting? || i.pc.Reaped? || i.pc.Exited?)
    && (i.pc.Exited? && i.child.Gone? ==> i.code == ExitCode(i.child.status))
    && (i.pc.Exited? && i.child.NotYet? ==> i.code == EXIT_SUCCESS || i.code == EXIT_FAILURE)
    && (i.pc.Exited? && i.child.NotYet? && i.code == EXIT_SUCCESS ==>
          i.settings.quiet && !i.settings.wait && i.calls == 1)
  }

  ghost predicate Inv(sys: System) {
    && (forall i :: 0 <= i < |sys.all| ==> (sys.all[i].HasLock() <==> sys.holder == Some(i)))
    && (sys.holder.Some? ==> sys.holder.value < |sys.all|)
    && forall i :: 0 <= i < |sys.all| ==> Tried(sys.all[i]) && Accounted(sys.all[i])
  }

  lemma StepInv(sys: System, e: Event)
    requires Inv(sys) && Enabled(sys, e)
    ensures Inv(Step(sys, e))
  {
    hide Tried, Accounted, Step;
    var sys' := Step(sys, e);
    StepKeepsLock(sys, e);
    StepOne(sys, e);
    forall i | 0 <= i < |sys'.all|
      ensures Tried(sys'.all[i]) && Accounted(sys'.all[i])
    {
      assert i != e.pid ==> sys'.all[i] == sys.all[i];
    }
  }

  lemma StepKeepsLock(sys: System, e: Event)
    requires Inv(sys) && Enabled(sys, e)
    ensures var sys' := Step(sys, e);
      && |sys'.all| == |sys.all|
      && (forall i :: 0 <= i < |sys.all| && i != e.pid ==> sys'.all[i] == sys.all[i])
      && (forall i :: 0 <= i < |sys'.all| ==> (sys'.all[i].HasLock() <==> sys'.holder == Some(i)))
      && (sys'.holder.Some? ==> sys'.holder.value < |sys'.all|)
  {
    hide Tried, ExitCode;
    var sys' := Step(sys, e);
    assert sys.all[e.pid].HasLock() <==> sys.holder == Some(e.pid);
    assert Accounted(sys.all[e.pid]);
    forall i | 0 <= i < |sys'.all|
      ensures sys'.all[i].HasLock() <==> sys'.holder == Some(i)
    {
      assert sys.all[i].HasLock() <==> sys.holder == Some(i);
    }
  }

  lemma StepOne(sys: System, e: Event)
    requires Inv(sys) && Enabled(sys, e)
    ensures Tried(Step(sys, e).all[e.pid]) && Accounted(Step(sys, e).all[e.pid])
  {
    hide ExitCode;
    assert Tried(sys.all[e.pid]) && Accounted(sys.all[e.pid]);
  }

  lemma {:induction false} RunInv(sys: System, es: seq<Event>)
    requires Inv(sys) && Feasible(sys, es)
    ensures Inv(Run(sys, es))
    decreases |es|
  {
    hide Inv, Step;
    if es != [] {
      StepInv(sys, es[0]);
      RunInv(Step(sys, es[0]), es[1..]);
    }
  }

  // ----- what it means -----

  /** In every interleaving: a launched process lives only while the instance that launched it holds the lock, so
      at most one lives at a time. */
  lemma OneCommandAtATime(all: seq<Settings>, es: seq<Event>)
    requires Feasible(Start(all), es)
    ensures var sys := Run(Start(all), es);
      && (forall i :: 0 <= i < |sys.all| && sys.all[i].Alive() ==> sys.holder == Some(i))
      && forall i, j :: 0 <= i < j < |sys.all| ==> !(sys.all[i].Alive() && sys.all[j].Alive())
  {
    RunInv(Start(all), es);
    var sys := Run(Start(all), es);
    forall i | 0 <= i < |sys.all| && sys.all[i].Alive()
      ensures sys.holder == Some(i)
    {
      assert Accounted(sys.all[i]);
      assert sys.all[i].HasLock();
    }
  }

  /** No step changes what the instances were asked to do. */
  lemma {:induction false} RunSettings(sys: System, es: seq<Event>)
    requires Feasible(sys, es)
    ensures |Run(sys, es).all| == |sys.all|
    ensures forall i :: 0 <= i < |sys.all| ==> Run(sys, es).all[i].settings == sys.all[i].settings
    decreases |es|
  {
    if es != [] { RunSettings(Step(sys, es[0]), es[1..]); }
  }

  /** An instance that waits calls for the lock at most `retries` times if that is positive, one that does not wait
      at most once. */
  lemma AttemptsBounded(all: seq<Settings>, es: seq<Event>, pid: nat)
    requires Feasible(Start(all), es) && pid < |all|
    ensures |Run(Start(all), es).all| == |all|
    ensures var calls := Run(Start(all), es).all[pid].calls;
      && (all[pid].retries > 0 ==> calls <= all[pid].retries)
      && (!all[pid].wait ==> calls <= 1)
  {
    RunInv(Start(all), es);
    RunSettings(Start(all), es);
    var i := Run(Start(all), es).all[pid];
    assert Tried(i);
  }

  lemma ReachedInv(all: seq<Settings>, es: seq<Event>)
    requires Feasible(Start(all), es)
    ensures Inv(Run(Start(all), es))
  {
    RunInv(Start(all), es);
  }

  /** A refused instance leaves for good exactly if it would not wait, or has called for the lock `retries` times. It
      then fails, unless it is a quiet one that would not wait; otherwise it sleeps, and tries again. */
  lemma GivesUpExactly(all: seq<Settings>, es: seq<Event>, e: Event)
    requires Feasible(Start(all), es) && Enabled(Run(Start(all), es), e) && !e.child
    requires e.pid < |all| == |Run(Start(all), es).all| && Run(Start(all), es).all[e.pid].pc.Refused?
    ensures var i, i' := Run(Start(all), es).all[e.pid], Step(Run(Start(all), es), e).all[e.pid];
      && (i'.pc.Exited? <==> !all[e.pid].wait || (all[e.pid].retries > 0 && i.calls == all[e.pid].retries))
      && (i'.pc.Exited? ==> i'.code == if all[e.pid].wait || !all[e.pid].quiet then 1 else 0)
      && (!i'.pc.Exited? ==> i'.pc.Sleeping?)
  {
    hide Accounted;
    ReachedInv(all, es);
    RunSettings(Start(all), es);
    assert Tried(Run(Start(all), es).all[e.pid]);
  }

  /** A call for the lock counts, and is granted exactly if no instance has the lock. */
  lemma LockGrantedExactly(all: seq<Settings>, es: seq<Event>, e: Event)
    requires Feasible(Start(all), es) && Enabled(Run(Start(all), es), e) && !e.child
    requires Run(Start(all), es).all[e.pid].pc.Trying?
    ensures var sys := Run(Start(all), es); var i' := Step(sys, e).all[e.pid];
      && i'.calls == sys.all[e.pid].calls + 1
      && (i'.pc.Holding? <==> forall j :: 0 <= j < |sys.all| ==> !sys.all[j].HasLock())
      && (!i'.pc.Holding? ==> i'.pc.Refused?)
  {
    hide Accounted, Tried;
    ReachedInv(all, es);
    var sys := Run(Start(all), es);
    assert !sys.all[e.pid].HasLock();
    if sys.holder.Some? { assert sys.all[sys.holder.value].HasLock(); }
  }

  /** Another instance has the lock and does not let go of it. */
  ghost predicate ShutOut(sys: System, pid: nat) {
    pid < |sys.all| && sys.all[pid].pc.Trying? && sys.holder.Some? && sys.holder != Some(pid)
  }

  /** A waiting instance that is shut out tries, is refused and sleeps, `k` times. */
  function Tries(pid: nat, k: nat): seq<Event> {
    if k == 0 then []
    else
      var e := Event(pid, false, false, Signalled);
      [e] + ([e] + ([e] + Tries(pid, k - 1)))
  }

  lemma {:induction false} KeepsTrying(sys: System, pid: nat, k: nat)
    requires ShutOut(sys, pid) && sys.all[pid].settings.wait
    requires sys.all[pid].settings.retries <= 0 || sys.all[pid].attempts + k < sys.all[pid].settings.retries
    ensures Feasible(sys, Tries(pid, k))
    ensures var i := sys.all[pid];
      Run(sys, Tries(pid, k)) == sys.(all := sys.all[pid := i.(attempts := i.attempts + k, calls := i.calls + k)])
    decreases k
  {
    hide Feasible, Run, Enabled, Step;
    var i := sys.all[pid];
    if k == 0 {
      RunNone(sys);
      assert sys.all[pid := i] == sys.all;
    } else {
      var e := Event(pid, false, false, Signalled);
      var rest := Tries(pid, k - 1);
      var once := sys.(all := sys.all[pid := i.(attempts := i.attempts + 1, calls := i.calls + 1)]);
      TriesOnce(sys, pid);
      KeepsTrying(once, pid, k - 1);
      var s1 := Step(sys, e);
      var s2 := Step(s1, e);
      RunFirst(s2, e, rest);
      RunFirst(s1, e, [e] + rest);
      RunFirst(sys, e, [e] + ([e] + rest));
      assert once.all[pid := once.all[pid].(attempts := i.attempts + k, calls := i.calls + k)]
          == sys.all[pid := i.(attempts := i.attempts + k, calls := i.calls + k)];
    }
  }

  lemma TriesOnce(sys: System, pid: nat)
    requires ShutOut(sys, pid) && sys.all[pid].settings.wait
    requires sys.all[pid].settings.retries <= 0 || sys.all[pid].attempts + 1 < sys.all[pid].settings.retries
    ensures var e, i := Event(pid, false, false, Signalled), sys.all[pid];
      && Enabled(sys, e) && Enabled(Step(sys, e), e) && Enabled(Step(Step(sys, e), e), e)
      && Step(Step(Step(sys, e), e), e)
      == sys.(all := sys.all[pid := i.(attempts := i.attempts + 1, calls := i.calls + 1)])
  {
    var e, i := Event(pid, false, false, Signalled), sys.all[pid];
    var s1 := Step(sys, e);
    assert s1 == sys.(all := sys.all[pid := i.(pc := Refused, calls := i.calls + 1)]);
    var s2 := Step(s1, e);
    assert s2.all == sys.all[pid := i.(pc := Sleeping, attempts := i.attempts + 1, calls := i.calls + 1)];
  }

  lemma RunNone(sys: System)
    ensures Feasible(sys, []) && Run(sys, []) == sys
  {
  }

  /** An instance that has exited holds no lock and left no process behind; its exit status is that of the process
      it launched, and without one it is success only for a quiet instance that would not wait. */
  lemma ExitTellsTheChild(all: seq<Settings>, es: seq<Event>, pid: nat)
    requires Feasible(Start(all), es) && pid < |all| == |Run(Start(all), es).all|
    requires Run(Start(all), es).all[pid].pc.Exited?
    ensures var sys := Run(Start(all), es); var i := sys.all[pid];
      && sys.holder != Some(pid) && !i.Alive()
      && (i.child.Gone? ==> Reflects(i.code, i.child.status))
      && (i.child.NotYet? ==> i.code == 0 || i.code == 1)
      && (i.child.NotYet? && i.code == 0 ==> all[pid].quiet && !all[pid].wait)
  {
    RunInv(Start(all), es);
    RunSettings(Start(all), es);
    var sys := Run(Start(all), es);
    assert Accounted(sys.all[pid]) && !sys.all[pid].HasLock();
    if sys.all[pid].child.Gone? { ExitCodeReflects(sys.all[pid].child.status); }
  }

  /** Success was the command's, or the quiet refusal of an instance that does not wait. */
  ghost predicate SuccessIsEarned(i: Instance) {
    i.pc.Exited? && i.code == EXIT_SUCCESS ==>
      || (i.child.Gone? && i.child.ran && EndsWell(i.child.status))
      || (i.child.NotYet? && i.settings.quiet && !i.settings.wait)
  }

  /** An `execvp` that fails. */
  predicate FailsToRun(sys: System, e: Event) {
    e.pid < |sys.all| && e.child && e.fails && sys.all[e.pid].child.Forked?
  }

  /** In this run an `execvp` of instance `pid` failed, and the process left the status of a success. */
  ghost predicate FakesSuccess(sys: System, es: seq<Event>, pid: nat)
    requires Feasible(sys, es)
    decreases |es|
  {
    es != [] &&
    (|| (es[0].pid == pid && FailsToRun(sys, es[0]) && EndsWell(es[0].status))
     || FakesSuccess(Step(sys, es[0]), es[1..], pid))
  }

  ghost predicate NeverFailsToRun(sys: System, es: seq<Event>, pid: nat)
    requires Feasible(sys, es)
    decreases |es|
  {
    es != [] ==> !(es[0].pid == pid && FailsToRun(sys, es[0])) && NeverFailsToRun(Step(sys, es[0]), es[1..], pid)
  }

  predicate Faked(i: Instance) { i.child.Gone? && !i.child.ran && EndsWell(i.child.status) }

  lemma StepFakes(sys: System, e: Event, pid: nat)
    requires Inv(sys) && Enabled(sys, e) && pid < |sys.all|
    ensures |Step(sys, e).all| == |sys.all|
    ensures Faked(Step(sys, e).all[pid]) <==>
      Faked(sys.all[pid]) || (e.pid == pid && FailsToRun(sys, e) && EndsWell(e.status))
  {
    hide Tried, ExitCode, EndsWell;
    assert Accounted(sys.all[pid]);
  }

  lemma {:induction false} RunFakes(sys: System, es: seq<Event>, pid: nat)
    requires Inv(sys) && Feasible(sys, es) && pid < |sys.all| == |Run(sys, es).all|
    ensures Faked(Run(sys, es).all[pid]) <==> Faked(sys.all[pid]) || FakesSuccess(sys, es, pid)
    decreases |es|
  {
    hide Inv, Step, Faked, FailsToRun, EndsWell;
    if es != [] {
      StepInv(sys, es[0]);
      StepFakes(sys, es[0], pid);
      RunFakes(Step(sys, es[0]), es[1..], pid);
    }
  }

  lemma {:induction false} NoFailureNoFake(sys: System, es: seq<Event>, pid: nat)
    requires Feasible(sys, es) && NeverFailsToRun(sys, es, pid)
    ensures !FakesSuccess(sys, es, pid)
    decreases |es|
  {
    hide Step, FailsToRun, EndsWell;
    if es != [] { NoFailureNoFake(Step(sys, es[0]), es[1..], pid); }
  }

  /** For an instance that has exited: its success is the command's, or the quiet refusal, exactly if no `execvp` of
      it failed and left the status of a success. */
  lemma SuccessIsEarnedExactly(all: seq<Settings>, es: seq<Event>, pid: nat)
    requires Feasible(Start(all), es) && pid < |all| == |Run(Start(all), es).all|
    requires Run(Start(all), es).all[pid].pc.Exited?
    ensures SuccessIsEarned(Run(Start(all), es).all[pid]) <==> !FakesSuccess(Start(all), es, pid)
    ensures NeverFailsToRun(Start(all), es, pid) ==> SuccessIsEarned(Run(Start(all), es).all[pid])
  {
    hide Step, ExitCode, NeverFailsToRun, FakesSuccess, EndsWell;
    RunInv(Start(all), es);
    RunFakes(Start(all), es, pid);
    if NeverFailsToRun(Start(all), es, pid) { NoFailureNoFake(Start(all), es, pid); }
    var i := Run(Start(all), es).all[pid];
    assert Accounted(i);
    if i.child.Gone? { ExitCodeReflects(i.child.status); }
  }

  /** No deadlock: an instance that has not exited can step, or the process it launched can. */
  lemma SomeoneMoves(all: seq<Settings>, es: seq<Event>, pid: nat)
    requires Feasible(Start(all), es) && pid < |Run(Start(all), es).all|
    requires !Run(Start(all), es).all[pid].pc.Exited?
    ensures var sys := Run(Start(all), es);
      exists child :: Enabled(sys, Event(pid, child, false, Signalled))
  {
    RunInv(Start(all), es);
    var sys := Run(Start(all), es);
    var i := sys.all[pid];
    assert Accounted(i);
    assert Enabled(sys, Event(pid, i.Alive(), false, Signalled));
  }

  /** What an instance alone with the lock does: launch, wait, exit. */
  function Alone(pid: nat, status: Status): seq<Event> {
    [Event(pid, false, false, status),    // gets the lock
     Event(pid, false, false, status),    // `fork`
     Event(pid, true, false, status),     // `execvp`
     Event(pid, true, false, status),     // the command ends
     Event(pid, false, false, status),    // `waitpid`
     Event(pid, false, false, status)]    // `exit`
  }

  /** The same when there is no such command. */
  function Missing(pid: nat, status: Status): seq<Event> {
    [Event(pid, false, false, status),    // gets the lock
     Event(pid, false, false, status),    // `fork`
     Event(pid, true, true, status),      // `execvp` fails, and the process exits with any status
     Event(pid, false, false, status),    // `waitpid`
     Event(pid, false, false, status)]    // `exit`
  }

  ghost predicate Ready(sys: System, pid: nat) {
    pid < |sys.all| && sys.all[pid].pc.Trying? && sys.all[pid].child.NotYet? && sys.holder.None?
  }

  /** `sys` with instance `pid` exited behind a launch. */
  function After(sys: System, pid: nat, ran: bool, status: Status): System
    requires pid < |sys.all|
  {
    var i := sys.all[pid];
    With(sys, pid, i.(pc := Exited, calls := i.calls + 1, child := Gone(ran, status), code := ExitCode(status)), None)
  }

  /** An instance that finds the lock free can run its command to whatever end, reports that end as its own, and
      leaves the lock free again. */
  lemma RunsItsCommand(sys: System, pid: nat, status: Status)
    requires Ready(sys, pid)
    ensures Feasible(sys, Alone(pid, status))
    ensures Run(sys, Alone(pid, status)) == After(sys, pid, true, status)
    ensures Reflects(After(sys, pid, true, status).all[pid].code, status)
  {
    AfterReflects(sys, pid, true, status);
    RunsAlone(sys, pid, status);
  }

  lemma AfterReflects(sys: System, pid: nat, ran: bool, status: Status)
    requires pid < |sys.all|
    ensures Reflects(After(sys, pid, ran, status).all[pid].code, status)
  {
    hide ExitCode;
    ExitCodeReflects(status);
  }

  lemma RunsAlone(sys: System, pid: nat, status: Status)
    requires Ready(sys, pid)
    ensures Feasible(sys, Alone(pid, status)) && Run(sys, Alone(pid, status)) == After(sys, pid, true, status)
  {
    hide Feasible, Run, Step, Enabled, ExitCode, With;
    var e, c := Event(pid, false, false, status), Event(pid, true, false, status);
    var i := sys.all[pid].(calls := sys.all[pid].calls + 1);
    var s1 := With(sys, pid, i.(pc := Holding), Some(pid));
    var s2 := With(sys, pid, i.(pc := Waiting, child := Forked), Some(pid));
    var s3 := With(sys, pid, i.(pc := Waiting, child := Running), Some(pid));
    var s4 := With(sys, pid, i.(pc := Waiting, child := Gone(true, status)), Some(pid));
    var s5 := With(sys, pid, i.(pc := Reaped, child := Gone(true, status)), Some(pid));
    Launches(sys, pid, status);
    Ends(sys, pid, i, true, status);
    RunLast(s5, e);
    RunFirst(s4, e, [e]);
    RunFirst(s3, c, [e] + [e]);
    RunFirst(s2, c, [c] + ([e] + [e]));
    RunFirst(s1, e, [c] + ([c] + ([e] + [e])));
    RunFirst(sys, e, [e] + ([c] + ([c] + ([e] + [e]))));
    assert [e] + ([e] + ([c] + ([c] + ([e] + [e])))) == Alone(pid, status);
  }

  /** And it can exit with any status, success included, without the command having run. */
  lemma MissingCommandRuns(sys: System, pid: nat, status: Status)
    requires Ready(sys, pid)
    ensures Feasible(sys, Missing(pid, status))
    ensures Run(sys, Missing(pid, status)) == After(sys, pid, false, status)
    ensures Reflects(After(sys, pid, false, status).all[pid].code, status)
  {
    AfterReflects(sys, pid, false, status);
    RunsMissing(sys, pid, status);
  }

  lemma RunsMissing(sys: System, pid: nat, status: Status)
    requires Ready(sys, pid)
    ensures Feasible(sys, Missing(pid, status)) && Run(sys, Missing(pid, status)) == After(sys, pid, false, status)
  {
    hide Feasible, Run, Step, Enabled, ExitCode, With;
    var e, f := Event(pid, false, false, status), Event(pid, true, true, status);
    var i := sys.all[pid].(calls := sys.all[pid].calls + 1);
    var s1 := With(sys, pid, i.(pc := Holding), Some(pid));
    var s2 := With(sys, pid, i.(pc := Waiting, child := Forked), Some(pid));
    var s4 := With(sys, pid, i.(pc := Waiting, child := Gone(false, status)), Some(pid));
    var s5 := With(sys, pid, i.(pc := Reaped, child := Gone(false, status)), Some(pid));
    Launches(sys, pid, status);
    Ends(sys, pid, i, false, status);
    RunLast(s5, e);
    RunFirst(s4, e, [e]);
    RunFirst(s2, f, [e] + [e]);
    RunFirst(s1, e, [f] + ([e] + [e]));
    RunFirst(sys, e, [e] + ([f] + ([e] + [e])));
    assert [e] + ([e] + ([f] + ([e] + [e]))) == Missing(pid, status);
  }

  /** If `fork` fails the instance exits with failure, has launched nothing, and leaves the lock free. */
  lemma CannotFork(sys: System, pid: nat, status: Status)
    requires Ready(sys, pid)
    ensures var es, i := [Event(pid, false, false, status)] + [Event(pid, false, true, status)], sys.all[pid];
      && Feasible(sys, es)
      && Run(sys, es) == With(sys, pid, i.(pc := Exited, calls := i.calls + 1, code := 1), None)
  {
    hide Feasible, Run;
    var e, f := Event(pid, false, false, status), Event(pid, false, true, status);
    var i := sys.all[pid].(calls := sys.all[pid].calls + 1);
    assert Step(sys, e) == With(sys, pid, i.(pc := Holding), Some(pid));
    assert Step(Step(sys, e), f) == With(sys, pid, i.(pc := Exited, code := 1), None);
    RunLast(Step(sys, e), f);
    RunFirst(sys, e, [f]);
  }

  /** If the lock file cannot be opened the instance exits with failure without having called for the lock. */
  lemma CannotOpen(sys: System, pid: nat, status: Status)
    requires pid < |sys.all| && sys.all[pid].pc.Opening? && sys.holder != Some(pid)
    ensures var e := Event(pid, false, true, status);
      && Enabled(sys, e)
      && Step(sys, e) == With(sys, pid, sys.all[pid].(pc := Exited, code := 1), sys.holder)
  {
  }

  /** `lockrun -L=f -- nosuchcmd` may exit with success: here is the run. */
  lemma SuccessWithoutCommand(s: Settings)
    ensures var es := [Event(0, false, false, Code(0))] + Missing(0, Code(0));
      && Feasible(Start([s]), es) && |Run(Start([s]), es).all| == 1
      && var i := Run(Start([s]), es).all[0];
         i.pc.Exited? && i.code == EXIT_SUCCESS && i.child == Gone(false, Code(0)) && !SuccessIsEarned(i)
  {
    hide Feasible, Run, Missing;
    var e := Event(0, false, false, Code(0));
    var ready := System([Instance(s, Trying, 0, 0, NotYet, 0)], None);
    assert Step(Start([s]), e) == ready;
    MissingCommandRuns(ready, 0, Code(0));
    RunFirst(Start([s]), e, Missing(0, Code(0)));
  }

  /** `sys` but for instance `pid` and the lock. */
  function With(sys: System, pid: nat, i: Instance, holder: Option<nat>): System
    requires pid < |sys.all|
  {
    System(sys.all[pid := i], holder)
  }

  /** From the free lock to the forked process. */
  lemma Launches(sys: System, pid: nat, status: Status)
    requires Ready(sys, pid)
    ensures var e, i := Event(pid, false, false, status), sys.all[pid].(calls := sys.all[pid].calls + 1);
      var s1 := With(sys, pid, i.(pc := Holding), Some(pid));
      && Enabled(sys, e) && Step(sys, e) == s1
      && Enabled(s1, e) && Step(s1, e) == With(sys, pid, i.(pc := Waiting, child := Forked), Some(pid))
  {
  }

  /** From the forked process, which becomes the command or does not, to the exit of the instance. */
  lemma Ends(sys: System, pid: nat, i: Instance, ran: bool, status: Status)
    requires pid < |sys.all|
    ensures var e, c := Event(pid, false, false, status), Event(pid, true, !ran, status);
      var s2 := With(sys, pid, i.(pc := Waiting, child := Forked), Some(pid));
      var s3 := if ran then With(sys, pid, i.(pc := Waiting, child := Running), Some(pid)) else s2;
      var s4 := With(sys, pid, i.(pc := Waiting, child := Gone(ran, status)), Some(pid));
      var s5 := With(sys, pid, i.(pc := Reaped, child := Gone(ran, status)), Some(pid));
      var s6 := With(sys, pid, i.(pc := Exited, child := Gone(ran, status), code := ExitCode(status)), None);
      && (ran ==> Enabled(s2, c) && Step(s2, c) == s3)
      && Enabled(s3, c) && Step(s3, c) == s4
      && Enabled(s4, e) && Step(s4, e) == s5
      && Enabled(s5, e) && Step(s5, e) == s6
  {
    hide ExitCode;
  }

  lemma RunFirst(sys: System, e: Event, es: seq<Event>)
    requires Enabled(sys, e) && Feasible(Step(sys, e), es)
    ensures Feasible(sys, [e] + es) && Run(sys, [e] + es) == Run(Step(sys, e), es)
  {
    assert ([e] + es)[1..] == es;
  }

  lemma RunLast(sys: System, e: Event)
    requires Enabled(sys, e)
    ensures Feasible(sys, [e]) && Run(sys, [e]) == Step(sys, e)
  {
  }
}

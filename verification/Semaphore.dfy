/** semaphore.c as interleaved steps of N processes around one mutex and one condition variable. */
module Semaphore {
  import opened Wrappers

  const COUNT_LIMIT: nat := 0x1_0000_0000   // `unsigned count`

  /** Where a process is. The middle group holds the mutex. `Blocked` is the wait set of the condition
      variable; a process that left it, signalled or not, has yet to get the mutex back. */
  datatype Pc =
    | Idle | PostLock | WaitLock | Blocked | WaitRelock
    | PostTest | PostAdd | PostUnlock | WaitTest | WaitTake | WaitUnlock
  {
    predicate Posting() { PostLock? || PostTest? || PostAdd? || PostUnlock? }

    predicate Inside() { PostTest? || PostAdd? || PostUnlock? || WaitTest? || WaitTake? || WaitUnlock? }
  }

  /** The shared memory and the processes; `posts` and `waits` count the calls that returned,
      `wraps` how often `count` overflowed. */
  datatype Sem = Sem(pcs: seq<Pc>, lock: Option<nat>, count: nat, posts: nat, waits: nat, wraps: nat)

  /** What is left open about a step: which call an idle process makes, and whom a signal wakes. */
  datatype Event = Event(pid: nat, post: bool, woken: set<nat>)

  ghost function Waiters(s: Sem): set<nat> { set i | 0 <= i < |s.pcs| && s.pcs[i].Blocked? }

  /** A signal wakes at least one waiter, if there is any. */
  ghost predicate MayWake(s: Sem, woken: set<nat>) {
    woken <= Waiters(s) && (Waiters(s) != {} ==> woken != {})
  }

  ghost predicate Enabled(s: Sem, e: Event) {
    && e.pid < |s.pcs|
    && match s.pcs[e.pid]
       case PostLock => s.lock.None?
       case WaitLock => s.lock.None?
       case WaitRelock => s.lock.None?
       case PostTest => s.count == 0 ==> MayWake(s, e.woken)
       case _ => true
  }

  function Wake(pcs: seq<Pc>, woken: set<nat>): (r: seq<Pc>)
    ensures |r| == |pcs|
    ensures forall i :: 0 <= i < |pcs| ==> r[i] == if i in woken then WaitRelock else pcs[i]
  {
    seq(|pcs|, i requires 0 <= i < |pcs| => if i in woken then WaitRelock else pcs[i])
  }

  /** One step of process `e.pid`. */
  function Step(s: Sem, e: Event): Sem
    requires e.pid < |s.pcs|
  {
    var i := e.pid;
    match s.pcs[i]
    case Idle => s.(pcs := s.pcs[i := if e.post then PostLock else WaitLock])
    case PostLock => s.(pcs := s.pcs[i := PostTest], lock := Some(i))
    case PostTest => s.(pcs := (if s.count == 0 then Wake(s.pcs, e.woken) else s.pcs)[i := PostAdd])
    case PostAdd =>
      if s.count + 1 == COUNT_LIMIT then s.(pcs := s.pcs[i := PostUnlock], count := 0, wraps := s.wraps + 1)
      else s.(pcs := s.pcs[i := PostUnlock], count := s.count + 1)
    case PostUnlock => s.(pcs := s.pcs[i := Idle], lock := None, posts := s.posts + 1)
    case WaitLock => s.(pcs := s.pcs[i := WaitTest], lock := Some(i))
    case WaitTest =>
      if s.count == 0 then s.(pcs := s.pcs[i := Blocked], lock := None)
      else s.(pcs := s.pcs[i := WaitTake])
    case Blocked => s.(pcs := s.pcs[i := WaitRelock])   // spurious wakeup
    case WaitRelock => s.(pcs := s.pcs[i := WaitTest], lock := Some(i))
    case WaitTake => s.(pcs := s.pcs[i := WaitUnlock], count := if s.count == 0 then COUNT_LIMIT - 1 else s.count - 1)
    case WaitUnlock => s.(pcs := s.pcs[i := Idle], lock := None, waits := s.waits + 1)
  }

  ghost predicate Feasible(s: Sem, es: seq<Event>)
    decreases |es|
  {
    es == [] || (Enabled(s, es[0]) && Feasible(Step(s, es[0]), es[1..]))
  }

  ghost function Run(s: Sem, es: seq<Event>): Sem
    requires Feasible(s, es)
    decreases |es|
  {
    if es == [] then s else Run(Step(s, es[0]), es[1..])
  }

  /** `n` idle processes and a semaphore at `initial`. */
  function Start(n: nat, initial: nat): Sem {
    Sem(seq(n, _ => Idle), None, initial, 0, 0, 0)
  }

  // ----- safety -----

  ghost predicate At(s: Sem, pc: Pc) { s.lock.Some? && s.lock.value < |s.pcs| && s.pcs[s.lock.value] == pc }

  function One(b: bool): nat { if b then 1 else 0 }

  ghost predicate Inv(s: Sem, initial: nat) {
    && (s.lock.Some? ==> s.lock.value < |s.pcs|)
    && (forall i :: 0 <= i < |s.pcs| ==> (s.pcs[i].Inside() <==> s.lock == Some(i)))
    && (At(s, WaitTake) ==> s.count > 0)
    && s.count < COUNT_LIMIT
    // an increment is counted as a completed post once the post returns, and likewise for waits
    && s.count + COUNT_LIMIT * s.wraps + s.waits + One(At(s, WaitUnlock)) == initial + s.posts + One(At(s, PostUnlock))
  }

  lemma StepInv(s: Sem, initial: nat, e: Event)
    requires Inv(s, initial) && Enabled(s, e)
    ensures Inv(Step(s, e), initial)
  {
    var s' := Step(s, e);
    forall i | 0 <= i < |s'.pcs| ensures s'.pcs[i].Inside() <==> s'.lock == Some(i) {
      assert s.pcs[i].Inside() <==> s.lock == Some(i);
      assert s.pcs[e.pid].Inside() <==> s.lock == Some(e.pid);
    }
  }

  lemma {:induction false} RunInv(s: Sem, initial: nat, es: seq<Event>)
    requires Inv(s, initial) && Feasible(s, es)
    ensures Inv(Run(s, es), initial)
    decreases |es|
  {
    hide Inv, Step;
    if es != [] {
      StepInv(s, initial, es[0]);
      RunInv(Step(s, es[0]), initial, es[1..]);
    }
  }

  /** In every interleaving at most one process is inside; whenever none is, the counter is what the completed
      calls make it, modulo its width, and exactly so when it never overflowed. */
  lemma CountsAndExcludes(n: nat, initial: nat, es: seq<Event>)
    requires initial < COUNT_LIMIT && Feasible(Start(n, initial), es)
    ensures var s := Run(Start(n, initial), es);
      && (forall i, j :: 0 <= i < j < |s.pcs| ==> !(s.pcs[i].Inside() && s.pcs[j].Inside()))
      && (s.lock.None? ==> s.count == (initial + s.posts - s.waits) % COUNT_LIMIT)
      && (s.lock.None? ==> (s.count == initial + s.posts - s.waits <==> s.wraps == 0))
  {
    RunInv(Start(n, initial), initial, es);
    var s := Run(Start(n, initial), es);
    WrapDrops(s.count, s.wraps);
  }

  lemma {:induction false} WrapDrops(c: nat, k: nat)
    requires c < COUNT_LIMIT
    ensures (c + COUNT_LIMIT * k) % COUNT_LIMIT == c
    decreases k
  {
    if k > 0 {
      WrapDrops(c, k - 1);
      assert c + COUNT_LIMIT * k == (c + COUNT_LIMIT * (k - 1)) + COUNT_LIMIT;
    }
  }

  // ----- wakeups -----

  /** No process enters the wait set while the counter is above zero, and none leaves it except by itself. */
  lemma WaitSetFrozen(s: Sem, initial: nat, e: Event)
    requires Inv(s, initial) && Enabled(s, e) && s.count > 0
    ensures Waiters(Step(s, e)) <= Waiters(s)
    ensures Waiters(s) - Waiters(Step(s, e)) <= {e.pid}
  {
  }

  /** A waiter may wake by itself; at zero it finds nothing, goes back to sleep, and all is as before. */
  lemma SpuriousWakeup(s: Sem, i: nat)
    requires i < |s.pcs| && s.pcs[i].Blocked? && s.lock.None? && s.count == 0
    ensures var e := Event(i, false, {});
      && Enabled(s, e) && Step(s, e).pcs[i].WaitRelock?
      && Feasible(s, [e, e, e]) && Run(s, [e, e, e]) == s
  {
    var e := Event(i, false, {});
    var s1 := Step(s, e);
    var s2 := Step(s1, e);
    var s3 := Step(s2, e);
    assert s3.pcs == s.pcs;
    assert [e, e, e][1..] == [e, e] && [e, e][1..] == [e] && [e][1..] == [];
    assert Enabled(s1, e) && Enabled(s2, e);
    assert Feasible(s3, []) && Run(s3, []) == s;
    assert Feasible(s2, [e]) && Run(s2, [e]) == s;
    assert Feasible(s1, [e, e]) && Run(s1, [e, e]) == s;
  }

  /** Nobody waits while there is something to take. */
  ghost predicate NoneWaitsInVain(s: Sem) { s.count > 0 ==> Waiters(s) == {} }

  ghost predicate Throughout(s: Sem, es: seq<Event>)
    requires Feasible(s, es)
    decreases |es|
  {
    NoneWaitsInVain(s) && (es == [] || Throughout(Step(s, es[0]), es[1..]))
  }

  /** The counter is about to leave zero. */
  predicate LeavesZero(s: Sem, e: Event) {
    e.pid < |s.pcs| && s.pcs[e.pid].PostAdd? && s.count == 0
  }

  /** Whenever the counter leaves zero the signal has left no waiter behind. */
  ghost predicate NoneLeftBehind(s: Sem, es: seq<Event>)
    requires Feasible(s, es)
    decreases |es|
  {
    es == [] || ((LeavesZero(s, es[0]) ==> Waiters(s) == {}) && NoneLeftBehind(Step(s, es[0]), es[1..]))
  }

  lemma TakesAboveZero(s: Sem, initial: nat, e: Event)
    requires Inv(s, initial) && Enabled(s, e)
    ensures s.pcs[e.pid].WaitTake? ==> s.count > 0
  {
    assert s.pcs[e.pid].Inside() <==> s.lock == Some(e.pid);
  }

  lemma StepVain(s: Sem, initial: nat, e: Event)
    requires Inv(s, initial) && Enabled(s, e) && NoneWaitsInVain(s)
    ensures NoneWaitsInVain(Step(s, e)) <==> (LeavesZero(s, e) ==> Waiters(s) == {})
  {
    var s' := Step(s, e);
    if LeavesZero(s, e) {
      assert Waiters(s') == Waiters(s);
    } else if s'.count > 0 {
      assert s.count > 0 by {
        TakesAboveZero(s, initial, e);
      }
      WaitSetFrozen(s, initial, e);
    }
  }

  /** The only step that can put a waiter beside a positive counter is the one that takes the counter from zero. */
  lemma {:induction false} NoLostWakeupExactly(s: Sem, initial: nat, es: seq<Event>)
    requires Inv(s, initial) && Feasible(s, es) && NoneWaitsInVain(s)
    ensures Throughout(s, es) <==> NoneLeftBehind(s, es)
    decreases |es|
  {
    hide Inv, Step, NoneWaitsInVain, LeavesZero;
    if es != [] {
      StepInv(s, initial, es[0]);
      StepVain(s, initial, es[0]);
      if NoneWaitsInVain(Step(s, es[0])) {
        NoLostWakeupExactly(Step(s, es[0]), initial, es[1..]);
      } else {
        ThroughoutHead(Step(s, es[0]), es[1..]);
      }
    }
  }

  lemma ThroughoutHead(s: Sem, es: seq<Event>)
    requires Feasible(s, es) && !NoneWaitsInVain(s)
    ensures !Throughout(s, es)
  {
  }

  /** At most one process is in the wait set whenever a post finds the counter at zero. */
  ghost predicate FewWait(s: Sem, es: seq<Event>)
    requires Feasible(s, es)
    decreases |es|
  {
    es != [] ==>
      && (s.pcs[es[0].pid].PostTest? && s.count == 0 ==> |Waiters(s)| <= 1)
      && FewWait(Step(s, es[0]), es[1..])
  }

  /** Behind the signal and before the increment, nobody waits. */
  ghost predicate SignalDone(s: Sem) { At(s, PostAdd) && s.count == 0 ==> Waiters(s) == {} }

  lemma StepSignal(s: Sem, initial: nat, e: Event)
    requires Inv(s, initial) && Enabled(s, e) && SignalDone(s)
    requires s.pcs[e.pid].PostTest? && s.count == 0 ==> |Waiters(s)| <= 1
    ensures SignalDone(Step(s, e))
    ensures LeavesZero(s, e) ==> Waiters(s) == {}
  {
    var s' := Step(s, e);
    assert s.pcs[e.pid].Inside() <==> s.lock == Some(e.pid);
    if s.pcs[e.pid].PostTest? && s.count == 0 {
      if Waiters(s) != {} { Singleton(Waiters(s), e.woken); }
      assert Waiters(s') == Waiters(s) - e.woken;
    } else if At(s', PostAdd) && s'.count == 0 {
      assert Waiters(s') <= Waiters(s);
    }
  }

  lemma Singleton<T>(a: set<T>, b: set<T>)
    requires |a| <= 1 && b <= a && b != {}
    ensures b == a
  {
    var x :| x in b;
    assert a == {x} + (a - {x});
    assert |a| == 1 + |a - {x}|;
  }

  lemma {:induction false} FewLeaveNone(s: Sem, initial: nat, es: seq<Event>)
    requires Inv(s, initial) && Feasible(s, es) && SignalDone(s) && FewWait(s, es)
    ensures NoneLeftBehind(s, es)
    decreases |es|
  {
    hide Inv, Step, SignalDone, LeavesZero, Waiters;
    if es != [] {
      StepInv(s, initial, es[0]);
      StepSignal(s, initial, es[0]);
      FewLeaveNone(Step(s, es[0]), initial, es[1..]);
    }
  }

  /** With at most one waiter at each signal no wakeup is lost. */
  lemma NoLostWakeup(n: nat, initial: nat, es: seq<Event>)
    requires initial < COUNT_LIMIT && Feasible(Start(n, initial), es) && FewWait(Start(n, initial), es)
    ensures Throughout(Start(n, initial), es)
  {
    var s := Start(n, initial);
    assert Waiters(s) == {};
    FewLeaveNone(s, initial, es);
    NoLostWakeupExactly(s, initial, es);
  }

  // ----- which processes may wait and post -----

  /** Who may call `semaphore_wait`, and who `semaphore_post`. */
  datatype Roles = Roles(waiters: set<nat>, posters: set<nat>)

  function UpTo(n: nat): (s: set<nat>)
    ensures forall i: nat :: i in s <==> i < n
  {
    if n == 0 then {} else UpTo(n - 1) + {n - 1}
  }

  function Everyone(n: nat): Roles { Roles(UpTo(n), UpTo(n)) }

  ghost predicate Permitted(s: Sem, e: Event, r: Roles)
    requires e.pid < |s.pcs|
  {
    s.pcs[e.pid].Idle? ==> e.pid in if e.post then r.posters else r.waiters
  }

  /** In this run processes call only what their roles permit. */
  ghost predicate Respects(s: Sem, es: seq<Event>, r: Roles)
    requires Feasible(s, es)
    decreases |es|
  {
    es != [] ==> Permitted(s, es[0], r) && Respects(Step(s, es[0]), es[1..], r)
  }

  /** There are two processes that may wait, and a third that may post. */
  ghost predicate MayStrand(n: nat, r: Roles) {
    exists a: nat, b: nat, p: nat :: a in r.waiters && b in r.waiters && p in r.posters && Apart(n, a, b, p)
  }

  predicate Apart(n: nat, a: nat, b: nat, p: nat) { a < n && b < n && p < n && a != b && b != p && p != a }

  /** Processes are inside only those calls their roles permit. */
  ghost predicate InRole(s: Sem, r: Roles) {
    forall i :: 0 <= i < |s.pcs| ==>
      && (s.pcs[i].Posting() ==> i in r.posters)
      && (!s.pcs[i].Idle? && !s.pcs[i].Posting() ==> i in r.waiters)
  }

  lemma StepInRole(s: Sem, e: Event, r: Roles)
    requires InRole(s, r) && Enabled(s, e) && Permitted(s, e, r)
    ensures InRole(Step(s, e), r) && |Step(s, e).pcs| == |s.pcs|
  {
    var s' := Step(s, e);
    forall i | 0 <= i < |s.pcs| && i != e.pid
      ensures s'.pcs[i] == s.pcs[i] || (s.pcs[i].Blocked? && s'.pcs[i].WaitRelock?)
    {
      assert s.pcs[e.pid].PostTest? && i in e.woken && s.count == 0 ==> i in Waiters(s);
    }
  }

  lemma AtMostOne(s: Sem, r: Roles, pid: nat)
    requires InRole(s, r) && !MayStrand(|s.pcs|, r) && pid < |s.pcs| && s.pcs[pid].PostTest?
    ensures |Waiters(s)| <= 1
  {
    var w := Waiters(s);
    if w != {} {
      var a :| a in w;
      forall b | b in w ensures b == a {
        if b != a { assert Apart(|s.pcs|, a, b, pid); }
      }
      assert w == {a};
    }
  }

  lemma {:induction false} RolesKeepFew(s: Sem, es: seq<Event>, r: Roles)
    requires Feasible(s, es) && Respects(s, es, r) && InRole(s, r) && !MayStrand(|s.pcs|, r)
    ensures FewWait(s, es)
    decreases |es|
  {
    hide Step, InRole, MayStrand, Waiters, Permitted;
    if es != [] {
      StepInRole(s, es[0], r);
      if s.pcs[es[0].pid].PostTest? { AtMostOne(s, r, es[0].pid); }
      RolesKeepFew(Step(s, es[0]), es[1..], r);
    }
  }

  ghost predicate Reachable(n: nat, initial: nat, r: Roles, s: Sem) {
    exists es ::
      && Feasible(Start(n, initial), es) && Respects(Start(n, initial), es, r)
      && Run(Start(n, initial), es) == s
  }

  /** Every call but those of the wait set has returned, and still someone sleeps beside a positive counter. */
  ghost predicate Stranded(s: Sem) {
    && s.count > 0 && Waiters(s) != {} && s.lock.None?
    && forall i :: 0 <= i < |s.pcs| ==> s.pcs[i].Idle? || s.pcs[i].Blocked?
  }

  lemma {:induction false} ThroughoutEnds(s: Sem, es: seq<Event>)
    requires Feasible(s, es) && Throughout(s, es)
    ensures NoneWaitsInVain(Run(s, es))
    decreases |es|
  {
    hide Step, NoneWaitsInVain;
    if es != [] { ThroughoutEnds(Step(s, es[0]), es[1..]); }
  }

  lemma StrandedFails(s: Sem, es: seq<Event>)
    requires Feasible(s, es) && Stranded(Run(s, es))
    ensures !Throughout(s, es)
  {
    hide Step, Throughout;
    if Throughout(s, es) { ThroughoutEnds(s, es); }
  }

  lemma RolesAreSafe(n: nat, initial: nat, r: Roles, es: seq<Event>)
    requires initial < COUNT_LIMIT && !MayStrand(n, r)
    requires Feasible(Start(n, initial), es) && Respects(Start(n, initial), es, r)
    ensures Throughout(Start(n, initial), es) && !Stranded(Run(Start(n, initial), es))
  {
    hide MayStrand;
    RolesKeepFew(Start(n, initial), es, r);
    NoLostWakeup(n, initial, es);
    ThroughoutEnds(Start(n, initial), es);
  }

  /** No wakeup can be lost, in any run and from any initial count, exactly unless two processes may wait and a third
      may post: then nobody ever waits beside a positive counter, and otherwise someone can be left asleep beside one
      when every other call has returned. */
  lemma WakeupsExactly(n: nat, initial: nat, r: Roles)
    requires initial < COUNT_LIMIT
    ensures !MayStrand(n, r) <==>
      forall es :: Feasible(Start(n, initial), es) && Respects(Start(n, initial), es, r) ==>
        Throughout(Start(n, initial), es)
    ensures !MayStrand(n, r) <==> !exists s :: Reachable(n, initial, r, s) && Stranded(s)
  {
    hide Step, Start, Throughout;
    if MayStrand(n, r) {
      var a: nat, b: nat, p: nat :| a in r.waiters && b in r.waiters && p in r.posters && Apart(n, a, b, p);
      var s := Strands(n, initial, r, a, b, p);
      var es :| Feasible(Start(n, initial), es) && Respects(Start(n, initial), es, r)
        && Run(Start(n, initial), es) == s;
      StrandedFails(Start(n, initial), es);
    } else {
      forall es | Feasible(Start(n, initial), es) && Respects(Start(n, initial), es, r)
        ensures Throughout(Start(n, initial), es) && !Stranded(Run(Start(n, initial), es))
      {
        RolesAreSafe(n, initial, r, es);
      }
    }
  }

  lemma {:induction false} EveryoneMay(s: Sem, es: seq<Event>, n: nat)
    requires |s.pcs| == n && Feasible(s, es)
    ensures Respects(s, es, Everyone(n))
    decreases |es|
  {
    if es != [] { EveryoneMay(Step(s, es[0]), es[1..], n); }
  }

  /** When every process may do both, no wakeup can be lost exactly if there are at most two of them. */
  lemma TwoProcessesExactly(n: nat, initial: nat)
    requires initial < COUNT_LIMIT
    ensures n <= 2 <==> forall es :: Feasible(Start(n, initial), es) ==> Throughout(Start(n, initial), es)
    ensures n <= 2 <==> !exists s :: Reachable(n, initial, Everyone(n), s) && Stranded(s)
  {
    hide Step, Start, Throughout, Reachable, Stranded, Respects;
    WakeupsExactly(n, initial, Everyone(n));
    if n > 2 { assert Apart(n, 0, 1, 2); }
    assert n <= 2 <==> !MayStrand(n, Everyone(n));
    forall es | Feasible(Start(n, initial), es)
      ensures Respects(Start(n, initial), es, Everyone(n))
    {
      assert |Start(n, initial).pcs| == n by { StartCount(n, initial); }
      EveryoneMay(Start(n, initial), es, n);
    }
  }

  lemma StartCount(n: nat, initial: nat)
    ensures |Start(n, initial).pcs| == n
  {
  }

  // ----- two waiters, two posts -----

  lemma {:induction false} RunAppend(s: Sem, es: seq<Event>, e: Event, r: Roles)
    requires Feasible(s, es) && Respects(s, es, r) && Enabled(Run(s, es), e) && Permitted(Run(s, es), e, r)
    ensures Feasible(s, es + [e]) && Respects(s, es + [e], r) && Run(s, es + [e]) == Step(Run(s, es), e)
    decreases |es|
  {
    hide Step, Permitted;
    if es == [] {
      assert [e][1..] == [];
    } else {
      assert (es + [e])[1..] == es[1..] + [e];
      RunAppend(Step(s, es[0]), es[1..], e, r);
    }
  }

  lemma Reach(n: nat, initial: nat, r: Roles, s: Sem, e: Event) returns (s': Sem)
    requires Reachable(n, initial, r, s) && Enabled(s, e) && Permitted(s, e, r)
    ensures s' == Step(s, e) && Reachable(n, initial, r, s')
  {
    hide Step, Permitted;
    var es :| Feasible(Start(n, initial), es) && Respects(Start(n, initial), es, r) && Run(Start(n, initial), es) == s;
    RunAppend(Start(n, initial), es, e, r);
    s' := Step(s, e);
  }

  lemma Begins(n: nat, initial: nat, r: Roles)
    ensures Reachable(n, initial, r, Start(n, initial))
  {
    assert Run(Start(n, initial), []) == Start(n, initial);
  }

  /** Process `i` calls `semaphore_wait` at zero and ends up in the wait set. */
  lemma GoesToSleep(n: nat, initial: nat, r: Roles, s: Sem, i: nat) returns (s': Sem)
    requires Reachable(n, initial, r, s) && i < |s.pcs| && s.pcs[i].Idle? && s.lock.None? && s.count == 0
    requires i in r.waiters
    ensures Reachable(n, initial, r, s') && s' == s.(pcs := s.pcs[i := Blocked])
  {
    hide Reachable;
    var e := Event(i, false, {});
    s' := Reach(n, initial, r, s, e);
    s' := Reach(n, initial, r, s', e);
    s' := Reach(n, initial, r, s', e);
  }

  /** Process `i` posts; at zero it wakes process `w`, and no one else. */
  lemma Posts(n: nat, initial: nat, r: Roles, s: Sem, i: nat, w: nat) returns (s': Sem)
    requires Reachable(n, initial, r, s) && i < |s.pcs| && s.pcs[i].Idle? && s.lock.None? && s.count < 2
    requires i in r.posters
    requires s.count == 0 ==> w < |s.pcs| && s.pcs[w].Blocked?
    ensures Reachable(n, initial, r, s')
    ensures s' == s.(pcs := if s.count == 0 then s.pcs[w := WaitRelock] else s.pcs,
                     count := s.count + 1, posts := s.posts + 1)
  {
    hide Reachable;
    var e := Event(i, true, {w});
    s' := Reach(n, initial, r, s, e);
    s' := Reach(n, initial, r, s', e);
    s' := Reach(n, initial, r, s', e);
    s' := Reach(n, initial, r, s', e);
    s' := Reach(n, initial, r, s', e);
    assert s'.pcs == if s.count == 0 then s.pcs[w := WaitRelock] else s.pcs;
  }

  /** A process that was woken, or comes to the lock for the first time, takes one and returns. */
  lemma Takes(n: nat, initial: nat, r: Roles, s: Sem, i: nat) returns (s': Sem)
    requires Reachable(n, initial, r, s) && i < |s.pcs| && (s.pcs[i].WaitRelock? || s.pcs[i].WaitLock?)
    requires s.lock.None? && s.count > 0
    ensures Reachable(n, initial, r, s')
    ensures s' == s.(pcs := s.pcs[i := Idle], count := s.count - 1, waits := s.waits + 1)
  {
    hide Reachable;
    var e := Event(i, false, {});
    s' := Reach(n, initial, r, s, e);
    s' := Reach(n, initial, r, s', e);
    s' := Reach(n, initial, r, s', e);
    s' := Reach(n, initial, r, s', e);
  }

  /** Process `i` alone takes the first `k` units. */
  lemma {:induction false} Drains(n: nat, initial: nat, r: Roles, i: nat, k: nat) returns (s: Sem)
    requires k <= initial && i < n && i in r.waiters
    ensures Reachable(n, initial, r, s) && s == Start(n, initial).(count := initial - k, waits := k)
    decreases k
  {
    hide Reachable;
    if k == 0 {
      Begins(n, initial, r);
      s := Start(n, initial);
    } else {
      s := Drains(n, initial, r, i, k - 1);
      var before := s.pcs;
      s := Reach(n, initial, r, s, Event(i, false, {}));
      s := Takes(n, initial, r, s, i);
      assert s.pcs == before;
    }
  }

  /** The units taken, `a` and `b` go to sleep; `p` posts twice and signals once, to `a`, who takes one and returns.
      The second post found the counter at one, so `b` sleeps on beside a counter of one. */
  lemma Strands(n: nat, initial: nat, r: Roles, a: nat, b: nat, p: nat) returns (s: Sem)
    requires a in r.waiters && b in r.waiters && p in r.posters && Apart(n, a, b, p)
    ensures Reachable(n, initial, r, s) && Stranded(s)
    ensures s == Sem(Start(n, initial).pcs[b := Blocked], None, 1, 2, initial + 1, 0)
  {
    hide Reachable;
    s := Drains(n, initial, r, a, initial);
    var idle := s.pcs;
    s := GoesToSleep(n, initial, r, s, a);
    s := GoesToSleep(n, initial, r, s, b);
    s := Posts(n, initial, r, s, p, a);
    s := Posts(n, initial, r, s, p, a);
    s := Takes(n, initial, r, s, a);
    assert s.pcs == idle[b := Blocked];
    assert b in Waiters(s);
  }

  /** Two waiters and two posts: one waiter sleeps on beside a counter of one, every call but its own
      having returned. */
  lemma LostWakeup() returns (s: Sem)
    ensures Reachable(3, 0, Everyone(3), s) && s == Sem([Idle, Blocked, Idle], None, 1, 2, 1, 0)
  {
    hide Reachable;
    s := Strands(3, 0, Everyone(3), 0, 1, 2);
    assert s.pcs == [Idle, Blocked, Idle];
  }
}

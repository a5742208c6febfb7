/** timer.c: the list of timers and a round of the dispatching thread, whose callbacks may change the list. */
module Timers {

  const MAX_TIMER_COUNT: nat := 1000

  /** `it_value` and `it_interval`, in seconds and nanoseconds; the interval is in milliseconds. */
  datatype Spec = Spec(second: nat, nano: nat, everySecond: nat, everyNano: nat)

  function SpecOf(interval: nat, periodic: bool): (s: Spec)
    ensures s.nano < 1_000_000_000 && s.second * 1_000_000_000 + s.nano == interval * 1_000_000
    ensures s.everyNano < 1_000_000_000
    ensures s.everySecond * 1_000_000_000 + s.everyNano == if periodic then interval * 1_000_000 else 0
  {
    var second, nano := interval / 1000, interval % 1000 * 1_000_000;
    if periodic then Spec(second, nano, second, nano) else Spec(second, nano, 0, 0)
  }

  class Node {
    const fd: nat
    const handler: nat   // 0 is no handler
    const userData: nat
    const interval: nat
    const periodic: bool
    var next: Node?

    constructor (fd: nat, handler: nat, userData: nat, interval: nat, periodic: bool, next: Node?)
      ensures this.fd == fd && this.handler == handler && this.userData == userData
      ensures this.interval == interval && this.periodic == periodic && this.next == next
    {
      this.fd, this.handler, this.userData := fd, handler, userData;
      this.interval, this.periodic, this.next := interval, periodic, next;
    }
  }

  /** What happened so far. `Polled` has the descriptors asked about, what `poll` answered, and which of them it
      reported; a read is of one timer descriptor. */
  datatype Event =
    | Started(n: Node) | Stopped(n: Node)
    | Polled(fds: seq<nat>, answer: int, pollIn: seq<bool>) | ReadOk(fd: nat) | ReadFailed(fd: nat)
    | Fired(n: Node)
  {
    predicate Kernel() { Polled? || ReadOk? || ReadFailed? }
  }

  function Without(l: seq<Node>, n: Node): seq<Node> {
    if l == [] then [] else if l[0] == n then Without(l[1..], n) else [l[0]] + Without(l[1..], n)
  }

  lemma {:induction false} WithoutMember(l: seq<Node>, n: Node, x: Node)
    ensures x in Without(l, n) <==> x in l && x != n
  {
    if l != [] { WithoutMember(l[1..], n, x); }
  }

  /** The timers a history leaves registered, latest first. */
  function Listing(log: seq<Event>): seq<Node> {
    if log == [] then [] else After(Listing(log[..|log| - 1]), log[|log| - 1])
  }

  function After(l: seq<Node>, e: Event): seq<Node> {
    match e
    case Started(n) => [n] + l
    case Stopped(n) => Without(l, n)
    case _ => l
  }

  /** A timer is registered exactly if it was started and not stopped since. */
  ghost predicate Running(log: seq<Event>, n: Node) {
    exists k :: 0 <= k < |log| && log[k] == Started(n) && forall j :: k < j < |log| ==> log[j] != Stopped(n)
  }

  lemma {:induction false} RegisteredExactly(log: seq<Event>, n: Node)
    ensures n in Listing(log) <==> Running(log, n)
    decreases |log|
  {
    hide Without, Running;
    if log == [] {
      NeverRan(n);
    } else {
      var before, e := log[..|log| - 1], log[|log| - 1];
      assert log == before + [e];
      RegisteredExactly(before, n);
      RunningAfter(before, e, n);
      if e.Stopped? { WithoutMember(Listing(before), e.n, n); }
    }
  }

  lemma NeverRan(n: Node)
    ensures !Running([], n)
  {
  }

  lemma RunningAfter(log: seq<Event>, e: Event, n: Node)
    ensures Running(log + [e], n) <==> e == Started(n) || (Running(log, n) && e != Stopped(n))
  {
    var log' := log + [e];
    if e == Started(n) { assert log'[|log|] == Started(n); }
    if Running(log, n) && e != Stopped(n) {
      var k :| 0 <= k < |log| && log[k] == Started(n) && forall j :: k < j < |log| ==> log[j] != Stopped(n);
      assert log'[k] == Started(n);
    }
    if Running(log', n) && e != Started(n) {
      var k :| 0 <= k < |log'| && log'[k] == Started(n) && forall j :: k < j < |log'| ==> log'[j] != Stopped(n);
      assert log[k] == Started(n);
      assert log'[|log|] == e;
      assert forall j :: k < j < |log| ==> log[j] == log'[j];
    }
  }

  /** Every callback went to a timer that was registered at that moment, had a handler, and whose own
      descriptor was read successfully just before. */
  ghost predicate CallsOk(log: seq<Event>) {
    forall k {:trigger log[k]} :: 0 <= k < |log| && log[k].Fired? ==>
      && k > 0 && log[k - 1] == ReadOk(log[k].n.fd)
      && Running(log[..k], log[k].n) && log[k].n.handler != 0
  }

  lemma CallsExtend(log: seq<Event>, e: Event)
    requires CallsOk(log)
    requires e.Fired? ==> log != [] && log[|log| - 1] == ReadOk(e.n.fd) && e.n in Listing(log) && e.n.handler != 0
    ensures CallsOk(log + [e])
  {
    hide Listing, Running;
    var log' := log + [e];
    forall k | 0 <= k < |log'| && log'[k].Fired?
      ensures k > 0 && log'[k - 1] == ReadOk(log'[k].n.fd) && Running(log'[..k], log'[k].n) && log'[k].n.handler != 0
    {
      if k < |log| {
        assert log'[..k] == log[..k] && log[k].Fired?;
      } else {
        assert log'[..k] == log;
        RegisteredExactly(log, e.n);
      }
    }
  }

  lemma ListingExtend(log: seq<Event>, e: Event)
    ensures Listing(log + [e]) == After(Listing(log), e)
  {
    assert (log + [e])[..|log|] == log;
  }

  ghost predicate Distinct(l: seq<Node>) {
    && (forall i, j :: 0 <= i < j < |l| ==> l[i] != l[j])
    && (forall i, j :: 0 <= i < j < |l| ==> l[i].fd != l[j].fd)
  }

  lemma {:induction false} WithoutAt(l: seq<Node>, i: nat)
    requires Distinct(l) && i < |l|
    ensures Without(l, l[i]) == l[..i] + l[i + 1..]
    decreases |l|
  {
    if i == 0 {
      NotThere(l[1..], l[0]);
    } else {
      WithoutAt(l[1..], i - 1);
      assert l[..i] == [l[0]] + l[1..][..i - 1] && l[i + 1..] == l[1..][i..];
    }
  }

  lemma {:induction false} NotThere(l: seq<Node>, n: Node)
    requires n !in l
    ensures Without(l, n) == l
  {
    if l != [] { NotThere(l[1..], n); }
  }

  /** Every registered timer has its own descriptor, armed for its interval. */
  ghost predicate Armed(l: seq<Node>, open: map<nat, Spec>) {
    forall i :: 0 <= i < |l| ==> l[i].fd in open && open[l[i].fd] == SpecOf(l[i].interval, l[i].periodic)
  }

  /** The list, the history and the kernel's descriptors belong together. */
  ghost predicate Agrees(l: seq<Node>, log: seq<Event>, open: map<nat, Spec>) {
    Distinct(l) && l == Listing(log) && CallsOk(log) && Armed(l, open)
  }

  lemma StartedAgrees(l: seq<Node>, log: seq<Event>, open: map<nat, Spec>, n: Node)
    requires Agrees(l, log, open) && n !in l && n.fd !in open
    ensures Agrees([n] + l, log + [Started(n)], open[n.fd := SpecOf(n.interval, n.periodic)])
  {
    hide Listing, Running, CallsOk;
    CallsExtend(log, Started(n));
    ListingExtend(log, Started(n));
  }

  lemma StoppedAgrees(l: seq<Node>, log: seq<Event>, open: map<nat, Spec>, i: nat)
    requires Agrees(l, log, open) && i < |l|
    ensures Agrees(l[..i] + l[i + 1..], log + [Stopped(l[i])], open - {l[i].fd})
  {
    hide Listing, Running, CallsOk, Armed, Distinct;
    CallsExtend(log, Stopped(l[i]));
    ListingExtend(log, Stopped(l[i]));
    WithoutAt(l, i);
    StoppedArmed(l, open, i);
  }

  lemma StoppedArmed(l: seq<Node>, open: map<nat, Spec>, i: nat)
    requires Distinct(l) && Armed(l, open) && i < |l|
    ensures Distinct(l[..i] + l[i + 1..]) && Armed(l[..i] + l[i + 1..], open - {l[i].fd})
  {
    var l', open' := l[..i] + l[i + 1..], open - {l[i].fd};
    forall j | 0 <= j < |l'|
      ensures l'[j] == l[if j < i then j else j + 1]
    {
    }
    forall j | 0 <= j < |l'|
      ensures l'[j].fd in open' && open'[l'[j].fd] == SpecOf(l'[j].interval, l'[j].periodic)
    {
      var j' := if j < i then j else j + 1;
      assert l'[j] == l[j'] && j' != i;
      assert l[j'].fd != l[i].fd;
    }
  }

  lemma NotedAgrees(l: seq<Node>, log: seq<Event>, open: map<nat, Spec>, e: Event)
    requires Agrees(l, log, open)
    requires e.Kernel() ||
      (e.Fired? && log != [] && log[|log| - 1] == ReadOk(e.n.fd) && e.n in l && e.n.handler != 0)
    ensures Agrees(l, log + [e], open)
  {
    hide Listing, Running, CallsOk;
    CallsExtend(log, e);
    ListingExtend(log, e);
  }

  lemma AgreeDistinct(l: seq<Node>, log: seq<Event>, open: map<nat, Spec>)
    requires Agrees(l, log, open)
    ensures Distinct(l)
  {
  }

  lemma AgreeHistory(l: seq<Node>, log: seq<Event>, open: map<nat, Spec>)
    requires Agrees(l, log, open)
    ensures l == Listing(log) && CallsOk(log)
  {
  }

  /** What a callback adds to the history: starts and stops. */
  ghost predicate OnlyStartsAndStops(events: seq<Event>) {
    forall k {:trigger events[k]} :: 0 <= k < |events| ==> events[k].Started? || events[k].Stopped?
  }

  /** What serving one descriptor adds to a history: a read that fails, or the successful read, then, if a timer with
      that descriptor and a handler is registered, its callback and what the callback did. */
  ghost predicate Served(l: seq<Node>, fd: nat, events: seq<Event>) {
    || events == [ReadFailed(fd)]
    || (&& events != [] && events[0] == ReadOk(fd)
        && if |events| == 1 then forall n :: n in l && n.fd == fd ==> n.handler == 0
           else
             && events[1].Fired? && events[1].n in l && events[1].n.fd == fd && events[1].n.handler != 0
             && OnlyStartsAndStops(events[2..]))
  }

  /** The descriptors read, in order. */
  function Reads(events: seq<Event>): seq<nat> {
    if events == [] then [] else ReadBy(events[0]) + Reads(events[1..])
  }

  function ReadBy(e: Event): seq<nat> { if e.ReadOk? || e.ReadFailed? then [e.fd] else [] }

  /** The descriptors reported, in order. */
  function Reported(fds: seq<nat>, pollIn: seq<bool>): seq<nat>
    requires |fds| == |pollIn|
  {
    if fds == [] then []
    else
      var k := |fds| - 1;
      Reported(fds[..k], pollIn[..k]) + if pollIn[k] then [fds[k]] else []
  }

  lemma ReportedNext(fds: seq<nat>, pollIn: seq<bool>, k: nat)
    requires k < |fds| == |pollIn|
    ensures Reported(fds[..k + 1], pollIn[..k + 1])
         == Reported(fds[..k], pollIn[..k]) + if pollIn[k] then [fds[k]] else []
  {
    assert fds[..k + 1][..k] == fds[..k] && pollIn[..k + 1][..k] == pollIn[..k];
  }

  lemma {:induction false} ReadsConcat(a: seq<Event>, b: seq<Event>)
    ensures Reads(a + b) == Reads(a) + Reads(b)
  {
    hide ReadBy;
    if a == [] {
      assert a + b == b;
    } else {
      assert (a + b)[0] == a[0] && (a + b)[1..] == a[1..] + b;
      ReadsConcat(a[1..], b);
      assert ReadBy(a[0]) + (Reads(a[1..]) + Reads(b)) == (ReadBy(a[0]) + Reads(a[1..])) + Reads(b);
    }
  }

  lemma {:induction false} NoReads(events: seq<Event>)
    requires OnlyStartsAndStops(events)
    ensures Reads(events) == []
  {
    if events != [] {
      forall k | 0 <= k < |events| - 1 ensures events[1..][k].Started? || events[1..][k].Stopped? {
        assert events[1..][k] == events[k + 1];
      }
      NoReads(events[1..]);
    }
  }

  lemma ServedReads(l: seq<Node>, fd: nat, events: seq<Event>)
    requires Served(l, fd, events)
    ensures Reads(events) == [fd]
  {
    hide OnlyStartsAndStops;
    if |events| == 1 {
      assert Reads(events[1..]) == [];
    } else {
      assert events[1..][1..] == events[2..];
      NoReads(events[2..]);
      assert Reads(events[1..]) == Reads(events[2..]);
    }
  }

  /** A successful read at `k` was followed at once by the callback of every timer registered then that has this
      descriptor and a handler. */
  ghost predicate Answered(log: seq<Event>, k: nat)
    requires k < |log| && log[k].ReadOk?
  {
    forall n :: n in Listing(log[..k]) && n.fd == log[k].fd && n.handler != 0 ==>
      k + 1 < |log| && log[k + 1] == Fired(n)
  }

  ghost predicate AllAnswered(log: seq<Event>, from: nat) {
    forall k {:trigger log[k]} :: from <= k < |log| && log[k].ReadOk? ==> Answered(log, k)
  }

  lemma AnsweredStays(log: seq<Event>, more: seq<Event>, k: nat)
    requires k < |log| && log[k].ReadOk? && Answered(log, k)
    ensures Answered(log + more, k)
  {
    hide Listing;
    assert (log + more)[..k] == log[..k];
  }

  lemma ServedAnswersNow(log: seq<Event>, l: seq<Node>, fd: nat, more: seq<Event>)
    requires l == Listing(log) && Distinct(l) && Served(l, fd, more) && more[0].ReadOk?
    ensures Answered(log + more, |log|)
  {
    hide Listing, OnlyStartsAndStops;
    var all := log + more;
    assert all[..|log|] == log && all[|log|] == more[0];
    assert |more| > 1 ==> all[|log| + 1] == more[1];
  }

  lemma ServedAnswers(log: seq<Event>, l: seq<Node>, fd: nat, more: seq<Event>, from: nat)
    requires AllAnswered(log, from) && l == Listing(log) && Distinct(l) && Served(l, fd, more)
    ensures AllAnswered(log + more, from)
  {
    hide Listing, Answered, Served, Distinct;
    var all := log + more;
    forall k | from <= k < |all| && all[k].ReadOk?
      ensures Answered(all, k)
    {
      if k < |log| {
        assert log[k].ReadOk?;
        AnsweredStays(log, more, k);
      } else {
        OneRead(l, fd, more, k - |log|);
        ServedAnswersNow(log, l, fd, more);
      }
    }
  }

  lemma OneRead(l: seq<Node>, fd: nat, more: seq<Event>, k: nat)
    requires Served(l, fd, more) && k < |more| && more[k].ReadOk?
    ensures k == 0
  {
    forall j | 2 <= j < |more| ensures !more[j].ReadOk? {
      assert more[j] == more[2..][j - 2];
    }
  }

  predicate NoRepeats(s: seq<nat>) { forall i, j :: 0 <= i < j < |s| ==> s[i] != s[j] }

  lemma OneMore(s: seq<nat>, x: nat)
    requires NoRepeats(s) && x !in s
    ensures NoRepeats(s + [x])
  {
    forall i | 0 <= i < |s| ensures s[i] != x { assert s[i] in s; }
  }

  /** Different descriptors are reported at most once each. */
  lemma {:induction false} ReportedOnce(fds: seq<nat>, pollIn: seq<bool>)
    requires |fds| == |pollIn| && NoRepeats(fds)
    ensures NoRepeats(Reported(fds, pollIn)) && forall fd :: fd in Reported(fds, pollIn) ==> fd in fds
  {
    if fds != [] {
      var k := |fds| - 1;
      var inner := Reported(fds[..k], pollIn[..k]);
      ReportedOnce(fds[..k], pollIn[..k]);
      forall fd | fd in inner ensures fd in fds && fd != fds[k] {
        assert fd in fds[..k];
      }
      OneMore(inner, fds[k]);
    }
  }

  function Descriptors(l: seq<Node>): (fds: seq<nat>)
    ensures |fds| == |l| && forall i :: 0 <= i < |l| ==> fds[i] == l[i].fd
  {
    seq(|l|, i requires 0 <= i < |l| => l[i].fd)
  }

  /** The node at a position, null at the end. */
  function At(l: seq<Node>, i: nat): Node? {
    if i < |l| then l[i] else null
  }

  class Timers {
    var head: Node?
    var open: map<nat, Spec>   // the timer descriptors that exist, as the kernel has them set
    ghost var list: seq<Node>
    ghost var log: seq<Event>
    ghost var shortages: nat   // the calls for memory or a descriptor that failed

    constructor ()
      ensures Valid() && list == [] && log == [] && shortages == 0
    {
      head, open, list, log, shortages := null, map[], [], [], 0;
    }

    /** The nodes from `head` on are `l`. */
    ghost predicate Linked(l: seq<Node>)
      reads `head, l
    {
      && head == At(l, 0)
      && forall i {:trigger l[i].next} :: 0 <= i < |l| ==> l[i].next == At(l, i + 1)
    }

    ghost predicate Valid()
      reads this, list
    {
      Linked(list) && Agrees(list, log, open)
    }

    /** A callback begins. */
    ghost method Fire(n: Node)
      requires Valid() && log != [] && log[|log| - 1] == ReadOk(n.fd) && n in list && n.handler != 0
      modifies `log
      ensures Valid() && log == old(log) + [Fired(n)]
    {
      hide Agrees, Linked;
      NotedAgrees(list, log, open, Fired(n));
      log := log + [Fired(n)];
    }

    /** `read` of eight bytes; it cannot succeed on a descriptor that is closed. */
    method Read(fd: nat) returns (ok: bool)
      requires Valid()
      modifies `log
      ensures Valid() && log == old(log) + [if ok then ReadOk(fd) else ReadFailed(fd)]
      ensures ok ==> fd in open
    {
      hide Agrees, Linked;
      ok := *;
      ok := ok && fd in open;
      ghost var e := if ok then ReadOk(fd) else ReadFailed(fd);
      NotedAgrees(list, log, open, e);
      log := log + [e];
    }

    /** `poll` on the first `count` descriptors: its answer, and which of them it reports. */
    method Poll(ufds: array<nat>, count: nat) returns (answer: int, pollIn: seq<bool>)
      requires Valid() && count <= ufds.Length
      modifies `log
      ensures |pollIn| == count
      ensures Valid() && log == old(log) + [Polled(ufds[..count], answer, pollIn)]
    {
      hide Agrees, Linked;
      answer := *;
      pollIn := [];
      while |pollIn| < count
        invariant |pollIn| <= count
      {
        var reported: bool := *;
        pollIn := pollIn + [reported];
      }
      ghost var e := Polled(ufds[..count], answer, pollIn);
      NotedAgrees(list, log, open, e);
      log := log + [e];
    }

    /** `malloc` of a node, which may fail. */
    method Memory() returns (ok: bool)
      modifies `shortages
      ensures shortages == old(shortages) + if ok then 0 else 1
    {
      ok := *;
      if !ok { shortages := shortages + 1; }
    }

    /** `timerfd_create`: a descriptor not in use, or none. */
    method Create() returns (ok: bool, fd: nat)
      modifies `shortages
      ensures shortages == old(shortages) + if ok then 0 else 1
      ensures ok ==> fd !in open
    {
      fd := *;
      ok := fd !in open;
      if !ok { shortages := shortages + 1; }
    }

    /** `timer_start`; null exactly when memory or descriptors are short. */
    method Start(interval: nat, handler: nat, periodic: bool, userData: nat) returns (id: Node?)
      requires Valid()
      modifies this
      ensures Valid()
      ensures shortages == old(shortages) + if id == null then 1 else 0
      ensures id == null ==> list == old(list) && log == old(log) && open == old(open)
      ensures id != null ==> fresh(id) && list == [id] + old(list) && log == old(log) + [Started(id)]
      ensures id != null ==> id.fd !in old(open) && open == old(open)[id.fd := SpecOf(interval, periodic)]
      ensures id != null ==> id.handler == handler && id.userData == userData
      ensures id != null ==> id.interval == interval && id.periodic == periodic
    {
      hide Agrees, SpecOf;
      var memory := Memory();
      if !memory { return null; }
      var created, fd := Create();
      if !created { return null; }
      var node := new Node(fd, handler, userData, interval, periodic, head);
      open := open[fd := SpecOf(interval, periodic)];
      head := node;
      StartedAgrees(list, log, old(open), node);
      list, log := [node] + list, log + [Started(node)];
      return node;
    }

    /** `timer_stop` of a registered timer, or of nothing. */
    method Stop(node: Node?) returns (ghost i: nat)
      requires Valid() && (node == null || node in list)
      modifies `head, `open, `list, `log, list
      ensures Valid()
      ensures node == null ==> list == old(list) && log == old(log) && open == old(open)
      ensures node != null ==>
        && i < |old(list)| && old(list)[i] == node && list == old(list)[..i] + old(list)[i + 1..]
        && log == old(log) + [Stopped(node)] && open == old(open) - {node.fd}
    {
      hide Agrees, Linked;
      i := 0;
      if node == null {
        return;
      }
      i :| 0 <= i < |list| && list[i] == node;
      AgreeDistinct(list, log, open);
      StoppedAgrees(list, log, open, i);
      open := open - {node.fd};
      Unlink(node, i);
      list, log := list[..i] + list[i + 1..], log + [Stopped(node)];
    }

    /** The part of `timer_stop` that takes node `i` out of the list. */
    method Unlink(node: Node, ghost i: nat)
      requires Linked(list) && Distinct(list) && i < |list| && list[i] == node
      modifies `head, list
      ensures Linked(list[..i] + list[i + 1..])
    {
      if node == head {
        assert i == 0;
        head := head.next;
      } else {
        var tmp := head;
        ghost var k := 0;
        while tmp != null && tmp.next != node
          invariant 0 <= k < i && tmp == list[k] && tmp.next == list[k + 1]
          decreases |list| - k
        {
          tmp := tmp.next;
          k := k + 1;
        }
        if tmp != null {
          tmp.next := tmp.next.next;
        }
        ghost var l := list[..i] + list[i + 1..];
        forall j | 0 <= j < |l|
          ensures l[j].next == At(l, j + 1)
        {
          assert l[j] == list[if j < i then j else j + 1];
          assert j != k ==> unchanged(l[j]);
        }
      }
    }

    /** The loop of `timer_finalize`. */
    method Finalize()
      requires Valid()
      modifies `head, `open, `list, `log, list
      ensures Valid() && list == [] && head == null
      ensures forall i :: 0 <= i < |old(list)| ==> old(list)[i].fd !in open
    {
      hide Agrees;
      while head != null
        invariant Valid() && |list| <= |old(list)| && list == old(list)[|old(list)| - |list|..]
        invariant forall i :: 0 <= i < |old(list)| - |list| ==> old(list)[i].fd !in open
        decreases |list|
      {
        AgreeDistinct(list, log, open);
        ghost var i := Stop(head);
        assert i == 0;
      }
    }

    /** `_get_timer_from_fd`. */
    method GetTimerFromFd(fd: nat) returns (r: Node?)
      requires Valid()
      ensures r != null ==> r in list && r.fd == fd
      ensures r == null ==> forall n :: n in list ==> n.fd != fd
    {
      hide Agrees;
      var tmp := head;
      ghost var k := 0;
      while tmp != null
        invariant 0 <= k <= |list| && tmp == At(list, k)
        invariant forall i :: 0 <= i < k ==> list[i].fd != fd
        decreases |list| - k
      {
        if tmp.fd == fd { return tmp; }
        tmp := tmp.next;
        k := k + 1;
      }
      return null;
    }

    /** Some registered timer, or nothing: what a callback may know to stop. */
    method Known() returns (r: Node?)
      requires Valid()
      ensures r == null || r in list
    {
      hide Agrees;
      r := head;
      ghost var k := 0;
      while r != null
        invariant 0 <= k <= |list| && r == At(list, k)
        decreases |list| - k
      {
        var thisOne: bool := *;
        if thisOne { return; }
        r := r.next;
        k := k + 1;
      }
    }

    ghost predicate Within(nodes: set<Node>)
      reads this
    {
      forall i :: 0 <= i < |list| ==> list[i] in nodes
    }

    /** The callback of timer `n`: any number of starts and stops, in any order. */
    method Callback(n: Node, ghost before: set<Node>)
      requires Valid() && Within(before)
      requires log != [] && log[|log| - 1] == ReadOk(n.fd) && n in list && n.handler != 0
      modifies this, before
      ensures Valid()
      ensures old(log) + [Fired(n)] <= log && OnlyStartsAndStops(log[|old(log)| + 1..])
      ensures forall i :: 0 <= i < |list| ==> list[i] in before || fresh(list[i])
    {
      hide Agrees, Linked;
      Fire(n);
      ghost var first := log;
      var steps: nat := *;
      while steps > 0
        invariant Valid()
        invariant first <= log && OnlyStartsAndStops(log[|first|..])
        invariant forall i :: 0 <= i < |list| ==> list[i] in before || fresh(list[i])
      {
        var start: bool := *;
        if start {
          var interval: nat, handler: nat, periodic: bool, userData: nat := *, *, *, *;
          var _ := Start(interval, handler, periodic, userData);
        } else {
          var node := Known();
          ghost var _ := Stop(node);
        }
        steps := steps - 1;
      }
    }

    /** The body of the dispatching loop, for a descriptor that `poll` reported. */
    method Serve(fd: nat, ghost before: set<Node>)
      requires Valid() && Within(before)
      modifies this, before
      ensures Valid()
      ensures old(log) <= log && Served(old(list), fd, log[|old(log)|..])
      ensures forall i :: 0 <= i < |list| ==> list[i] in before || fresh(list[i])
    {
      hide Agrees, Linked, OnlyStartsAndStops;
      var readOk := Read(fd);
      if !readOk { return; }
      var tmp := GetTimerFromFd(fd);
      if tmp != null && tmp.handler != 0 {
        Callback(tmp, before);
        assert log[|old(log)|..][2..] == log[|old(log)| + 2..];
      } else {
        assert tmp != null ==> forall n :: n in list && n.fd == fd ==> n == tmp by {
          AgreeDistinct(list, log, open);
        }
      }
    }

    /** The descriptors to poll, in list order. */
    method Collect(ufds: array<nat>) returns (count: nat)
      requires Valid() && |list| <= ufds.Length
      modifies ufds
      ensures count == |list| && ufds[..count] == Descriptors(list)
    {
      hide Agrees;
      count := 0;
      var tmp := head;
      while tmp != null
        invariant Linked(list) && 0 <= count <= |list| && tmp == At(list, count)
        invariant ufds[..count] == Descriptors(list)[..count]
        decreases |list| - count
      {
        ufds[count] := tmp.fd;
        count := count + 1;
        tmp := tmp.next;
      }
    }

    /** One round of `_timer_thread`: `poll` over the descriptors of the list as it is now, then every reported one
        in turn. If `poll` answers above 0 the reported descriptors, and no others, are read in list order, and every
        successful read is followed by the callback of the timer registered for that descriptor then. */
    method Round()
      requires Valid() && |list| <= MAX_TIMER_COUNT
      modifies this, list
      ensures Valid() && list == Listing(log) && CallsOk(log)
      ensures |old(log)| < |log| && old(log) == log[..|old(log)|]
      ensures var p, did := log[|old(log)|], log[|old(log)| + 1..];
        && p.Polled? && p.fds == Descriptors(old(list)) && |p.pollIn| == |p.fds|
        && if p.answer > 0 then Reads(did) == Reported(p.fds, p.pollIn) && NoRepeats(Reads(did)) else did == []
      ensures AllAnswered(log, |old(log)|)
    {
      hide Agrees, Linked, Served, CallsOk, Listing, AllAnswered, Reads, Reported;
      AgreeDistinct(list, log, open);
      AgreeHistory(list, log, open);
      ghost var fds := Descriptors(list);
      var ufds := new nat[MAX_TIMER_COUNT];
      var count := Collect(ufds);
      var answer, pollIn := Poll(ufds, count);
      ghost var first := log;
      AgreeHistory(list, log, open);
      PollAnswers(first);
      assert log[|old(log)| + 1..] == [] && first[..|old(log)|] == old(log);
      if answer <= 0 { return; }
      var i := 0;
      NothingYet(fds[..0], pollIn[..0], log[|first|..]);
      while i < count
        invariant 0 <= i <= count == |fds| == |pollIn| && ufds[..count] == fds
        invariant Valid() && first <= log && AllAnswered(log, |old(log)|)
        invariant Reads(log[|first|..]) == Reported(fds[..i], pollIn[..i])
        invariant forall j :: 0 <= j < |list| ==> list[j] in old(list) || fresh(list[j])
      {
        ReportedNext(fds, pollIn, i);
        if pollIn[i] {
          ghost var start, known := log, list;
          AgreeDistinct(list, log, open);
          AgreeHistory(list, log, open);
          Serve(ufds[i], set n | n in list);
          assert ufds[i] == fds[i];
          assert log == start + log[|start|..] && log[|first|..] == start[|first|..] + log[|start|..];
          ServedReads(known, fds[i], log[|start|..]);
          ReadsConcat(start[|first|..], log[|start|..]);
          ServedAnswers(start, known, fds[i], log[|start|..], |old(log)|);
        }
        i := i + 1;
      }
      assert fds[..count] == fds && pollIn[..count] == pollIn;
      assert NoRepeats(fds);
      ReportedOnce(fds, pollIn);
      AgreeHistory(list, log, open);
      assert log[..|old(log)|] == first[..|old(log)|] && log[|old(log)|] == first[|old(log)|];
    }
  }

  lemma PollAnswers(log: seq<Event>)
    requires log != [] && log[|log| - 1].Polled?
    ensures AllAnswered(log, |log| - 1)
  {
  }

  lemma NothingYet(fds: seq<nat>, pollIn: seq<bool>, events: seq<Event>)
    requires fds == [] && pollIn == [] && events == []
    ensures Reads(events) == Reported(fds, pollIn)
  {
  }
}

/** What each scheduler step does to the processes, said on the queues, the places and the deadlines
    themselves, and what follows for a process over a run. */
module SchedEffects {
  import opened Seqs
  import opened SchedSpec
  import opened Sched

  // ---- Deadlines ----

  /** The sleep queue is in lexicographic order of tick and subtick. */
  lemma SortedMeans(s: seq<Sleeper>, i: nat, j: nat)
    requires Sorted(s) && i < j < |s|
    ensures s[i].tick < s[j].tick || (s[i].tick == s[j].tick && s[i].subtick <= s[j].subtick)
  {
    assert NotAfter(s[i], s[j]);
  }

  /** A new sleeper stands behind those due no later, equals included, and before those due later, in
      their old order. */
  lemma InsertSplits(s: seq<Sleeper>, x: Sleeper) returns (k: nat)
    requires Sorted(s)
    ensures k <= |s| && Insert(s, x) == s[..k] + [x] + s[k..]
    ensures forall i :: 0 <= i < k ==> s[i].tick < x.tick || (s[i].tick == x.tick && s[i].subtick <= x.subtick)
    ensures forall i :: k <= i < |s| ==> s[i].tick > x.tick || (s[i].tick == x.tick && s[i].subtick > x.subtick)
  {
    k := Slot(s, x);
    forall i | k <= i < |s|
      ensures s[i].tick > x.tick || (s[i].tick == x.tick && s[i].subtick > x.subtick)
    {
      assert i == k || NotAfter(s[k], s[i]);
    }
    forall i | 0 <= i < k
      ensures s[i].tick < x.tick || (s[i].tick == x.tick && s[i].subtick <= x.subtick)
    {
      assert NotAfter(s[i], x);
    }
  }

  /** Sleepers come from the old queue or are the new one; nobody else's deadline changes. */
  lemma InsertMembers(s: seq<Sleeper>, x: Sleeper, y: Sleeper)
    ensures y in Insert(s, x) <==> y in s || y == x
  {
    var k := Slot(s, x);
    assert s == s[..k] + s[k..];
  }

  lemma SleeperPlaced(s: State, x: Sleeper)
    requires Inv(s) && x in s.sleeping
    ensures x.pid in s.place && s.place[x.pid] == Sleeping
  {
    var i :| 0 <= i < |s.sleeping| && s.sleeping[i] == x;
    assert ListOk(Members(s, Sleeping), s.place, Sleeping);
    assert Members(s, Sleeping)[i] == x.pid && x.pid in Members(s, Sleeping);
  }

  /** Two entries of the sleep queue are of two processes. */
  lemma OneEntry(s: State, x: Sleeper, y: Sleeper)
    requires Inv(s) && x in s.sleeping && y in s.sleeping && x.pid == y.pid
    ensures x == y
  {
    var i :| 0 <= i < |s.sleeping| && s.sleeping[i] == x;
    var j :| 0 <= j < |s.sleeping| && s.sleeping[j] == y;
    assert ListOk(Members(s, Sleeping), s.place, Sleeping);
    assert Members(s, Sleeping)[i] == x.pid && Members(s, Sleeping)[j] == y.pid;
  }

  /** At or before the time, comparing ticks and then subticks. */
  predicate Reached(x: Sleeper, tick: nat, subtick: nat) { x.tick < tick || (x.tick == tick && x.subtick <= subtick) }

  /** From `s` to `t` a tick at that time has woken sleeper `x` if its time had come, and only then. */
  predicate WokenIfDue(s: State, t: State, tick: nat, subtick: nat, x: Sleeper) {
    && x in s.sleeping && x.pid in t.place
    && (if Reached(x, tick, subtick) then (t.place[x.pid] == Ready || t.place[x.pid] == Running) && forall y <- t.sleeping :: y.pid != x.pid
        else t.place[x.pid] == Sleeping && x in t.sleeping)
  }

  // ---- The steps ----

  /** What a timer tick leaves of the sleep queue. */
  lemma TickQueue(s: State, tick: nat, subtick: nat)
    ensures var t := Next(s, TickStep(tick, subtick));
            t.sleeping == s.sleeping[DueCount(s.sleeping, tick, subtick)..] && t.waiting == s.waiting && t.finished == s.finished
  {
    hide DueCount, WakeFirst, Woken;
    WakeFirstIs(s, DueCount(s.sleeping, tick, subtick));
  }

  /** A timer tick wakes exactly the sleepers whose time has come: they are ready or running, and all
      others sleep on with their deadlines. */
  lemma TickWakes(s: State, tick: nat, subtick: nat, x: Sleeper)
    requires Inv(s) && x in s.sleeping
    ensures WokenIfDue(s, Next(s, TickStep(tick, subtick)), tick, subtick, x)
  {
    hide Inv, Tick;
    var t, n := Next(s, TickStep(tick, subtick)), DueCount(s.sleeping, tick, subtick);
    TickQueue(s, tick, subtick);
    NextKeepsInv(s, TickStep(tick, subtick));
    var i :| 0 <= i < |s.sleeping| && s.sleeping[i] == x;
    InvSorted(s);
    DueIsPrefix(s.sleeping, tick, subtick, i);
    if i >= n {
      assert t.sleeping[i - n] == x;
      SleeperPlaced(t, x);
    } else {
      forall y | y in t.sleeping
        ensures y.pid != x.pid
      {
        var j :| 0 <= j < |t.sleeping| && t.sleeping[j] == y;
        assert s.sleeping[n + j] == y;
        DueIsPrefix(s.sleeping, tick, subtick, n + j);
        if y.pid == x.pid { OneEntry(s, x, y); }
      }
      WokenPlace(s, tick, subtick, i);
    }
  }

  lemma InvSorted(s: State)
    requires Inv(s)
    ensures Sorted(s.sleeping)
  {
  }

  /** A sleeper off the queue after a tick went to the run queue. */
  lemma WokenPlace(s: State, tick: nat, subtick: nat, i: nat)
    requires Inv(s) && i < DueCount(s.sleeping, tick, subtick)
    ensures var t, p := Next(s, TickStep(tick, subtick)), s.sleeping[i].pid;
            p in t.place && (t.place[p] == Ready || t.place[p] == Running)
  {
    hide Placed, DueCount, WakeFirst, Woken, Sorted;
    var n := DueCount(s.sleeping, tick, subtick);
    var u, t, p := WakeFirst(s, n), Next(s, TickStep(tick, subtick)), s.sleeping[i].pid;
    WakeFirstKeeps(s, n);
    WokenOrder(s.sleeping[..n], s.ready);
    assert u.ready[n - 1 - i] == p && p in u.ready;
    ReadyPlaced(u, p);
    RescheduledPlace(u, p);
  }

  lemma ReadyPlaced(s: State, p: Pid)
    requires Placed(s) && p in s.ready
    ensures p in s.place && s.place[p] == Ready
  {
    assert ListOk(Members(s, Ready), s.place, Ready);
  }

  lemma RescheduledPlace(s: State, p: Pid)
    requires p in s.place && s.place[p] == Ready
    ensures var t := Reschedule(s); p in t.place && (t.place[p] == Ready || t.place[p] == Running)
  {
  }

  /** A process that switches away hands over to the one at the tail of the run queue. */
  predicate HandsOver(s: State, t: State) {
    s.ready != [] && t.running == [s.ready[|s.ready| - 1]] && t.ready == s.ready[..|s.ready| - 1]
  }

  /** `process_exit`: the process is finished, behind all that finished before, and off every other queue. */
  lemma ExitEffect(s: State)
    requires Inv(s) && Current(s) != INIT
    ensures var t, p := Next(s, ExitStep), Current(s);
            && HandsOver(s, t) && t.finished == s.finished + [p] && p in t.place && t.place[p] == Finished && p !in t.ready
            && t.sleeping == s.sleeping && t.waiting == s.waiting && p !in t.running
  {
    hide Inv;
    SomebodyReady(s);
    CurrentNotReady(s);
  }

  lemma CurrentNotReady(s: State)
    requires Inv(s)
    ensures Current(s) !in s.ready
  {
    assert ListOk(Members(s, Running), s.place, Running) && ListOk(Members(s, Ready), s.place, Ready);
    assert Current(s) in Members(s, Running);
  }

  /** `process_sleep_until`: the process sleeps until exactly the time given. */
  lemma SleepEffect(s: State, tick: nat, subtick: nat)
    requires Inv(s) && Current(s) != INIT
    ensures var t, p := Next(s, SleepStep(tick, subtick)), Current(s);
            && HandsOver(s, t) && multiset(t.sleeping) == multiset(s.sleeping) + multiset{Sleeper(p, tick, subtick)}
            && p in t.place && t.place[p] == Sleeping && p !in t.ready
            && t.waiting == s.waiting && t.finished == s.finished && p !in t.running
  {
    hide Inv, Insert;
    SomebodyReady(s);
    CurrentNotReady(s);
    InsertPermutes(s.sleeping, Sleeper(Current(s), tick, subtick));
  }

  /** `sleep_on`: the process waits on that queue, last to be woken. */
  lemma BlockEffect(s: State, q: Queue)
    requires Inv(s) && Current(s) != INIT
    ensures var t, p := Next(s, BlockStep(q)), Current(s);
            && HandsOver(s, t) && WaitList(t, q) == [p] + WaitList(s, q) && p in t.place && t.place[p] == Waiting(q) && p !in t.ready
            && t.sleeping == s.sleeping && t.finished == s.finished && p !in t.running
            && forall r: Queue :: r != q ==> WaitList(t, r) == WaitList(s, r)
  {
    hide Inv;
    SomebodyReady(s);
    CurrentNotReady(s);
  }

  /** `wakeup_from`: the longest waiting process joins the run queue; an empty queue changes nothing. */
  lemma WakeEffect(s: State, q: Queue)
    requires Inv(s)
    ensures var t, l := Next(s, WakeStep(q)), WaitList(s, q);
            if l == [] then t == s
            else
              var p := l[|l| - 1];
              && WaitList(t, q) == l[..|l| - 1] && t.ready == [p] + s.ready && t.running == s.running
              && t.place == s.place[p := Ready] && t.sleeping == s.sleeping && t.finished == s.finished
              && forall r: Queue :: r != q ==> WaitList(t, r) == WaitList(s, r)
  {
  }

  /** `sys_fork`: one more process, ready, under a number never used before. */
  lemma ForkEffect(s: State)
    requires Inv(s)
    ensures var t := Next(s, ForkStep);
            && s.nextPid !in s.place && t.place == s.place[s.nextPid := Ready] && t.ready == [s.nextPid] + s.ready
            && t.nextPid > s.nextPid && t.running == s.running && t.sleeping == s.sleeping
            && t.waiting == s.waiting && t.finished == s.finished
  {
  }

  /** A preemption sends the process to the end of the line; alone it goes on. */
  lemma YieldEffect(s: State)
    requires Inv(s)
    ensures var t, p := Next(s, Yield), Current(s);
            && (s.ready == [] ==> t == s)
            && (s.ready != [] ==>
                  && t.running == [s.ready[|s.ready| - 1]] && t.ready == [p] + s.ready[..|s.ready| - 1]
                  && p in t.place && t.place[p] == Ready)
            && t.sleeping == s.sleeping && t.waiting == s.waiting && t.finished == s.finished
  {
    hide Inv;
    CurrentNotReady(s);
    if s.ready != [] {
      var r := [Current(s)] + s.ready;
      assert r[..|r| - 1] == [Current(s)] + s.ready[..|s.ready| - 1] && r[|r| - 1] == s.ready[|s.ready| - 1];
    }
  }

  /** `sys_waitpid`: a finished process is gone, and nobody else is; any other pid changes nothing. */
  lemma ReapEffect(s: State, pid: Pid)
    requires Inv(s)
    ensures var t := Next(s, ReapStep(pid));
            && (pid !in s.finished ==> t == s)
            && (pid in s.finished ==> t.place == s.place - {pid} && pid !in t.finished)
            && (forall p :: p != pid ==> (p in t.finished <==> p in s.finished))
            && t.running == s.running && t.ready == s.ready && t.sleeping == s.sleeping && t.waiting == s.waiting
  {
    assert ListOk(Members(s, Finished), s.place, Finished);
    if pid in s.finished {
      var k := IndexOf(s.finished, pid);
      var f := Remove(s.finished, k);
      assert forall i :: 0 <= i < |f| ==> f[i] == s.finished[if i < k then i else i + 1];
      forall p | p in s.finished && p != pid
        ensures p in f
      {
        var j :| 0 <= j < |s.finished| && s.finished[j] == p;
        assert f[if j < k then j else j - 1] == p;
      }
    }
  }

  // ---- Over runs ----

  lemma {:induction false} RunFrom(run: seq<State>, steps: seq<Step>, i: nat)
    requires IsRun(run, steps) && Inv(run[0]) && i < |run|
    ensures Inv(run[i])
  {
    hide Inv, Next;
    if i > 0 {
      RunFrom(run, steps, i - 1);
      assert run[i - 1 + 1] == Next(run[i - 1], steps[i - 1]);
      NextKeepsInv(run[i - 1], steps[i - 1]);
    }
  }

  /** A step other than a tick at or after its deadline leaves a sleeper asleep. */
  lemma SleeperStays(s: State, step: Step, x: Sleeper)
    requires Inv(s) && Allowed(s, step) && x in s.sleeping && !(step.TickStep? && Reached(x, step.tick, step.subtick))
    ensures x in Next(s, step).sleeping
  {
    hide Inv, Insert;
    match step
    case TickStep(t, st) => TickWakes(s, t, st, x);
    case SleepStep(t, st) => InsertMembers(s.sleeping, Sleeper(Current(s), t, st), x);
    case _ =>
  }

  /** In every run a process put to sleep stays asleep, with its deadline, until the first tick at or
      after it, and that tick makes it ready or runs it. */
  lemma {:induction false} SleepsUntil(run: seq<State>, steps: seq<Step>, x: Sleeper, i: nat)
    requires IsRun(run, steps) && Inv(run[0]) && x in run[0].sleeping && i < |run|
    requires forall k :: 0 <= k < i ==> !(steps[k].TickStep? && Reached(x, steps[k].tick, steps[k].subtick))
    ensures x in run[i].sleeping && x.pid in run[i].place && run[i].place[x.pid] == Sleeping
    ensures i < |steps| && steps[i].TickStep? && Reached(x, steps[i].tick, steps[i].subtick) ==>
      var t := run[i + 1];
      x.pid in t.place && (t.place[x.pid] == Ready || t.place[x.pid] == Running) && forall y <- t.sleeping :: y.pid != x.pid
  {
    hide Inv, Next, Reached;
    if i > 0 {
      SleepsUntil(run, steps, x, i - 1);
      RunFrom(run, steps, i - 1);
      assert run[i - 1 + 1] == Next(run[i - 1], steps[i - 1]);
      SleeperStays(run[i - 1], steps[i - 1], x);
    }
    RunFrom(run, steps, i);
    SleeperPlaced(run[i], x);
    if i < |steps| && steps[i].TickStep? && Reached(x, steps[i].tick, steps[i].subtick) {
      assert run[i + 1] == Next(run[i], steps[i]);
      TickWakes(run[i], steps[i].tick, steps[i].subtick, x);
    }
  }

  /** A finished process stays finished under every step but its own reaping. */
  lemma FinishedStays(s: State, step: Step, p: Pid)
    requires Inv(s) && Allowed(s, step) && p in s.finished && step != ReapStep(p)
    ensures p in Next(s, step).finished
  {
    hide Inv, Insert, DueCount;
    match step
    case TickStep(t, st) => TickQueue(s, t, st);
    case ReapStep(pid) => ReapEffect(s, pid);
    case _ =>
  }

  /** In every run a finished process stays finished, never running, ready, sleeping or waiting again,
      until it is reaped; from then on it is nowhere. */
  lemma {:induction false} FinishedUntilReaped(run: seq<State>, steps: seq<Step>, p: Pid, i: nat)
    requires IsRun(run, steps) && Inv(run[0]) && p in run[0].finished && i < |run| && ReapStep(p) !in steps[..i]
    ensures p in run[i].finished && p in run[i].place && run[i].place[p] == Finished
    ensures forall pl: Place :: pl != Finished ==> p !in Members(run[i], pl)
    ensures i < |steps| && steps[i] == ReapStep(p) ==> p !in run[i + 1].place
  {
    hide Inv, Next;
    if i > 0 {
      assert steps[..i] == steps[..i - 1] + [steps[i - 1]];
      FinishedUntilReaped(run, steps, p, i - 1);
      RunFrom(run, steps, i - 1);
      assert run[i - 1 + 1] == Next(run[i - 1], steps[i - 1]);
      FinishedStays(run[i - 1], steps[i - 1], p);
    }
    RunFrom(run, steps, i);
    FinishedOnly(run[i], p);
    if i < |steps| && steps[i] == ReapStep(p) {
      assert run[i + 1] == Next(run[i], steps[i]);
      ReapEffect(run[i], p);
    }
  }

  lemma FinishedOnly(s: State, p: Pid)
    requires Inv(s) && p in s.finished
    ensures p in s.place && s.place[p] == Finished
    ensures forall pl: Place :: pl != Finished ==> p !in Members(s, pl)
  {
    assert ListOk(Members(s, Finished), s.place, Finished);
    forall pl: Place | pl != Finished
      ensures p !in Members(s, pl)
    {
      assert ListOk(Members(s, pl), s.place, pl);
    }
  }

  /** A number no process has any more is never given again. */
  lemma {:induction false} GoneForever(run: seq<State>, steps: seq<Step>, p: Pid, i: nat)
    requires IsRun(run, steps) && Inv(run[0]) && p < run[0].nextPid && p !in run[0].place && i < |run|
    ensures p < run[i].nextPid && p !in run[i].place
  {
    hide Inv, Next;
    if i > 0 {
      GoneForever(run, steps, p, i - 1);
      RunFrom(run, steps, i - 1);
      assert run[i - 1 + 1] == Next(run[i - 1], steps[i - 1]);
      GoneStep(run[i - 1], steps[i - 1], p);
    }
  }

  lemma GoneStep(s: State, step: Step, p: Pid)
    requires Inv(s) && Allowed(s, step) && p < s.nextPid && p !in s.place
    ensures p < Next(s, step).nextPid && p !in Next(s, step).place
  {
    hide Insert, DueCount, Sorted;
    assert forall pl: Place :: ListOk(Members(s, pl), s.place, pl);
    assert ListOk(Members(s, Running), s.place, Running) && ListOk(Members(s, Ready), s.place, Ready);
    assert Current(s) in Members(s, Running);
    match step
    case TickStep(t, st) => GoneTick(s, t, st, p);
    case WakeStep(q) => assert ListOk(Members(s, Waiting(q)), s.place, Waiting(q));
    case _ =>
  }

  lemma GoneTick(s: State, tick: nat, subtick: nat, p: Pid)
    requires Inv(s) && p < s.nextPid && p !in s.place
    ensures var t := Next(s, TickStep(tick, subtick)); p < t.nextPid && p !in t.place
  {
    hide Placed, DueCount, WakeFirst, Woken, Sorted;
    var n := DueCount(s.sleeping, tick, subtick);
    var u := WakeFirst(s, n);
    WakeFirstKeeps(s, n);
    RescheduledGone(u, p);
  }

  lemma RescheduledGone(s: State, p: Pid)
    requires Placed(s) && |s.running| == 1 && p !in s.place
    ensures Reschedule(s).nextPid == s.nextPid && p !in Reschedule(s).place
  {
    assert ListOk(Members(s, Running), s.place, Running) && ListOk(Members(s, Ready), s.place, Ready);
    assert Current(s) in Members(s, Running);
  }
}

/** The scheduler as a transition system: where every process is, and what each kernel entry does. */
module Sched {
  import opened SchedSpec
  import opened Seqs

  type Queue = nat
  const INIT: Pid := 1

  datatype Place = Running | Ready | Sleeping | Waiting(queue: Queue) | Finished

  /** `running` is the current process (empty only inside a switch); the queues are as the kernel
      keeps them. `place` is the view the invariant speaks of: where each existing process is. */
  datatype State = State(
    running: seq<Pid>,
    ready: seq<Pid>,
    sleeping: seq<Sleeper>,
    waiting: map<Queue, seq<Pid>>,
    finished: seq<Pid>,
    nextPid: Pid,
    place: map<Pid, Place>)

  function Pids(s: seq<Sleeper>): seq<Pid> { seq(|s|, i requires 0 <= i < |s| => s[i].pid) }

  function QueueOf(waiting: map<Queue, seq<Pid>>, q: Queue): seq<Pid> { if q in waiting then waiting[q] else [] }

  function WaitList(s: State, q: Queue): seq<Pid> { QueueOf(s.waiting, q) }

  function Current(s: State): Pid { if s.running == [] then 0 else s.running[0] }

  /** The list a place stands for. */
  function Members(s: State, pl: Place): seq<Pid> {
    match pl
    case Running => s.running
    case Ready => s.ready
    case Sleeping => Pids(s.sleeping)
    case Waiting(q) => WaitList(s, q)
    case Finished => s.finished
  }

  // ---- Steps ----

  /** `switch_to_next`: the tail of the run queue becomes current. */
  function Dispatch(s: State): State
    requires s.ready != []
  {
    var n := |s.ready| - 1;
    s.(running := [s.ready[n]], ready := s.ready[..n], place := s.place[s.ready[n] := Running])
  }

  /** The tail end of `context_switch`: nothing happens when the run queue is empty. */
  function Switch(s: State, running: seq<Pid>): State {
    if s.ready == [] then s.(running := running) else Dispatch(s)
  }

  /** `context_switch(1)`. */
  function Reschedule(s: State): State {
    if s.ready == [] then s
    else Dispatch(s.(running := [], ready := [Current(s)] + s.ready, place := s.place[Current(s) := Ready]))
  }

  /** The current process at the head of a wait queue. */
  function Parked(s: State, q: Queue): State {
    s.(running := [], waiting := s.waiting[q := [Current(s)] + WaitList(s, q)],
       place := s.place[Current(s) := Waiting(q)])
  }

  /** `sleep_on`: onto the wait queue's head, then `context_switch(0)`. */
  function Block(s: State, q: Queue): State { Switch(Parked(s, q), s.running) }

  /** `process_sleep_until` and the `context_switch(0)` its callers make. */
  function Sleep(s: State, tick: nat, subtick: nat): State {
    Switch(s.(running := [], sleeping := Insert(s.sleeping, Sleeper(Current(s), tick, subtick)),
              place := s.place[Current(s) := Sleeping]),
           s.running)
  }

  /** `process_exit`: onto the tail of the finished queue, then `switch_to_next`. */
  function Exit(s: State): State {
    Switch(s.(running := [], finished := s.finished + [Current(s)], place := s.place[Current(s) := Finished]), s.running)
  }

  /** `wakeup_from`: the tail of the wait queue joins the run queue. */
  function Wake(s: State, q: Queue): State {
    var l := WaitList(s, q);
    if l == [] then s
    else
      var p := l[|l| - 1];
      s.(waiting := s.waiting[q := l[..|l| - 1]], ready := [p] + s.ready, place := s.place[p := Ready])
  }

  /** The first `n` sleepers join the run queue. */
  function WakeFirst(s: State, n: nat): State
    requires n <= |s.sleeping|
  {
    if n == 0 then s
    else
      var t := WakeFirst(s, n - 1);
      t.(sleeping := s.sleeping[n..], ready := [s.sleeping[n - 1].pid] + t.ready, place := t.place[s.sleeping[n - 1].pid := Ready])
  }

  /** The timer interrupt: wake the due sleepers, then `context_switch(1)`. */
  function Tick(s: State, tick: nat, subtick: nat): State {
    Reschedule(WakeFirst(s, DueCount(s.sleeping, tick, subtick)))
  }

  function Fork(s: State): State {
    s.(ready := [s.nextPid] + s.ready, nextPid := s.nextPid + 1, place := s.place[s.nextPid := Ready])
  }

  /** `sys_waitpid` finding the process finished. */
  function Reap(s: State, pid: Pid): State {
    if pid in s.finished then s.(finished := Remove(s.finished, IndexOf(s.finished, pid)), place := s.place - {pid})
    else s
  }

  /** `list_create`: a new, empty wait queue. */
  function Create(s: State, q: Queue): State { if q in s.waiting then s else s.(waiting := s.waiting[q := []]) }

  datatype Step = TickStep(tick: nat, subtick: nat) | Yield | SleepStep(tick: nat, subtick: nat) | BlockStep(q: Queue)
                | WakeStep(q: Queue) | ForkStep | ExitStep | ReapStep(pid: Pid) | CreateStep(q: Queue)

  function Next(s: State, step: Step): State {
    match step
    case TickStep(t, st) => Tick(s, t, st)
    case Yield => Reschedule(s)
    case SleepStep(t, st) => Sleep(s, t, st)
    case BlockStep(q) => Block(s, q)
    case WakeStep(q) => Wake(s, q)
    case ForkStep => Fork(s)
    case ExitStep => Exit(s)
    case ReapStep(pid) => Reap(s, pid)
    case CreateStep(q) => Create(s, q)
  }

  /** The init process, pid 1, never sleeps, blocks or exits. */
  predicate Allowed(s: State, step: Step) {
    step.SleepStep? || step.BlockStep? || step.ExitStep? ==> Current(s) != INIT
  }

  // ---- The invariant ----

  /** The list of a place holds exactly the processes there, once each. */
  ghost predicate ListOk(l: seq<Pid>, place: map<Pid, Place>, pl: Place) {
    && NoDup(l)
    && (forall p <- l :: p in place && place[p] == pl)
    && (forall p <- place :: place[p] == pl ==> p in l)
  }

  ghost predicate Placed(s: State) { forall pl: Place :: ListOk(Members(s, pl), s.place, pl) }

  ghost predicate Numbered(s: State) { forall p <- s.place :: INIT <= p < s.nextPid }

  ghost predicate InitAlive(s: State) { INIT in s.place && (s.place[INIT] == Running || s.place[INIT] == Ready) }

  ghost predicate Inv(s: State) {
    |s.running| == 1 && Placed(s) && Numbered(s) && InitAlive(s) && Sorted(s.sleeping)
  }

  /** `process_init`. */
  function Start(): State { State([INIT], [], [], map[], [], 2, map[INIT := Running]) }

  lemma StartInv()
    ensures Inv(Start())
  {
  }

  // ---- Moving one process ----

  function InsertAt(l: seq<Pid>, k: nat, p: Pid): seq<Pid>
    requires k <= |l|
  {
    l[..k] + [p] + l[k..]
  }

  lemma ListInsert(l: seq<Pid>, place: map<Pid, Place>, pl: Place, k: nat, p: Pid)
    requires ListOk(l, place, pl) && k <= |l| && (p in place ==> place[p] != pl)
    ensures ListOk(InsertAt(l, k, p), place[p := pl], pl)
  {
    var m := InsertAt(l, k, p);
    assert forall x <- l :: x in m by {
      forall x <- l
        ensures x in m
      {
        var i :| 0 <= i < |l| && l[i] == x;
        assert m[if i < k then i else i + 1] == x;
      }
    }
    assert m[k] == p;
  }

  lemma ListRemove(l: seq<Pid>, place: map<Pid, Place>, pl: Place, k: nat, to: Place)
    requires ListOk(l, place, pl) && k < |l| && to != pl
    ensures ListOk(Remove(l, k), place[l[k] := to], pl)
  {
    var m := Remove(l, k);
    forall x <- l | x != l[k]
      ensures x in m
    {
      var i :| 0 <= i < |l| && l[i] == x;
      assert m[if i < k then i else i - 1] == x;
    }
  }

  lemma ListFrame(l: seq<Pid>, place: map<Pid, Place>, pl: Place, p: Pid, to: Place)
    requires ListOk(l, place, pl) && to != pl && (p in place ==> place[p] != pl)
    ensures ListOk(l, place[p := to], pl)
  {
  }

  /** Taking a process off one list and putting it on another keeps every process in one place. */
  lemma Move(s: State, t: State, from: Place, to: Place, k: nat, j: nat)
    requires Placed(s) && from != to
    requires k < |Members(s, from)| && Members(t, from) == Remove(Members(s, from), k)
    requires j <= |Members(s, to)| && Members(t, to) == InsertAt(Members(s, to), j, Members(s, from)[k])
    requires forall pl: Place :: pl != from && pl != to ==> Members(t, pl) == Members(s, pl)
    requires t.place == s.place[Members(s, from)[k] := to]
    ensures Placed(t)
  {
    hide Members;
    var p := Members(s, from)[k];
    assert ListOk(Members(s, from), s.place, from);
    forall pl: Place
      ensures ListOk(Members(t, pl), t.place, pl)
    {
      assert ListOk(Members(s, pl), s.place, pl);
      if pl == from {
        ListRemove(Members(s, from), s.place, from, k, to);
      } else if pl == to {
        ListInsert(Members(s, to), s.place, to, j, p);
      } else {
        ListFrame(Members(s, pl), s.place, pl, p, to);
      }
    }
  }

  // ---- Every step keeps the invariant ----

  lemma DispatchKeeps(s: State)
    requires Placed(s) && s.running == [] && s.ready != []
    ensures Placed(Dispatch(s))
  {
    var n := |s.ready| - 1;
    assert Remove(s.ready, n) == s.ready[..n];
    Move(s, Dispatch(s), Ready, Running, n, 0);
  }

  /** A process other than init is running, so init is on the run queue: a switch finds somebody. */
  lemma SomebodyReady(s: State)
    requires Inv(s) && Current(s) != INIT
    ensures INIT in s.ready && Current(s) in s.place && forall p <- s.ready :: p in s.place
  {
    assert ListOk(Members(s, Running), s.place, Running);
    assert ListOk(Members(s, Ready), s.place, Ready);
  }

  lemma RescheduleKeeps(s: State)
    requires Placed(s) && |s.running| == 1
    ensures Placed(Reschedule(s)) && |Reschedule(s).running| == 1
  {
    if s.ready != [] {
      var t := s.(running := [], ready := [Current(s)] + s.ready, place := s.place[Current(s) := Ready]);
      Move(s, t, Running, Ready, 0, 0);
      DispatchKeeps(t);
    }
  }

  lemma BlockParks(s: State, q: Queue)
    requires Placed(s) && |s.running| == 1
    ensures Placed(Parked(s, q))
  {
    Move(s, Parked(s, q), Running, Waiting(q), 0, 0);
  }

  lemma BlockKeeps(s: State, q: Queue)
    requires Placed(s) && |s.running| == 1 && s.ready != []
    ensures Placed(Block(s, q))
  {
    BlockParks(s, q);
    DispatchKeeps(Parked(s, q));
  }

  lemma SleepKeeps(s: State, tick: nat, subtick: nat)
    requires Placed(s) && |s.running| == 1 && s.ready != []
    ensures Placed(Sleep(s, tick, subtick))
  {
    var x := Sleeper(Current(s), tick, subtick);
    var t := s.(running := [], sleeping := Insert(s.sleeping, x), place := s.place[Current(s) := Sleeping]);
    assert Pids(t.sleeping) == InsertAt(Pids(s.sleeping), Slot(s.sleeping, x), Current(s));
    Move(s, t, Running, Sleeping, 0, Slot(s.sleeping, x));
    DispatchKeeps(t);
  }

  lemma ExitKeeps(s: State)
    requires Placed(s) && |s.running| == 1 && s.ready != []
    ensures Placed(Exit(s))
  {
    var t := s.(running := [], finished := s.finished + [Current(s)], place := s.place[Current(s) := Finished]);
    assert t.finished == InsertAt(s.finished, |s.finished|, Current(s));
    Move(s, t, Running, Finished, 0, |s.finished|);
    DispatchKeeps(t);
  }

  lemma WakeKeeps(s: State, q: Queue)
    requires Placed(s)
    ensures Placed(Wake(s, q))
  {
    var l := WaitList(s, q);
    if l != [] {
      assert Remove(l, |l| - 1) == l[..|l| - 1];
      Move(s, Wake(s, q), Waiting(q), Ready, |l| - 1, 0);
    }
  }

  /** Waking sleepers touches the two queues and the places only. */
  lemma {:induction false} WakeFirstIs(s: State, n: nat)
    requires n <= |s.sleeping|
    ensures WakeFirst(s, n) == s.(sleeping := s.sleeping[n..], ready := Woken(s.sleeping[..n], s.ready), place := WakeFirst(s, n).place)
  {
    if n == 0 {
      assert s.sleeping[0..] == s.sleeping;
    } else {
      WakeFirstIs(s, n - 1);
      assert s.sleeping[..n][..n - 1] == s.sleeping[..n - 1];
    }
  }

  lemma {:induction false} WakeFirstKeeps(s: State, n: nat)
    requires Placed(s) && n <= |s.sleeping|
    ensures var t := WakeFirst(s, n);
            && Placed(t) && t.sleeping == s.sleeping[n..] && t.running == s.running && t.nextPid == s.nextPid
            && t.ready == Woken(s.sleeping[..n], s.ready)
            && t.place.Keys == s.place.Keys
            && forall p <- s.place :: t.place[p] == s.place[p] || t.place[p] == Ready
  {
    if n == 0 {
      assert s.sleeping[0..] == s.sleeping;
    } else {
      WakeFirstKeeps(s, n - 1);
      var t, u := WakeFirst(s, n - 1), WakeFirst(s, n);
      assert s.sleeping[..n][..n - 1] == s.sleeping[..n - 1];
      assert t.sleeping[0] == s.sleeping[n - 1];
      assert Pids(u.sleeping) == Remove(Pids(t.sleeping), 0);
      assert ListOk(Members(t, Sleeping), t.place, Sleeping);
      assert Members(t, Sleeping)[0] == s.sleeping[n - 1].pid;
      Move(t, u, Sleeping, Ready, 0, 0);
    }
  }

  lemma ForkKeeps(s: State)
    requires Placed(s) && Numbered(s)
    ensures Placed(Fork(s))
  {
    var t := Fork(s);
    forall pl: Place
      ensures ListOk(Members(t, pl), t.place, pl)
    {
      assert ListOk(Members(s, pl), s.place, pl);
      assert Members(t, pl) == if pl == Ready then InsertAt(s.ready, 0, s.nextPid) else Members(s, pl);
      if pl == Ready {
        ListInsert(s.ready, s.place, Ready, 0, s.nextPid);
      } else {
        ListFrame(Members(s, pl), s.place, pl, s.nextPid, Ready);
      }
    }
  }

  lemma ReapKeeps(s: State, pid: Pid)
    requires Placed(s)
    ensures Placed(Reap(s, pid))
  {
    if pid in s.finished {
      var t, k := Reap(s, pid), IndexOf(s.finished, pid);
      assert ListOk(Members(s, Finished), s.place, Finished);
      forall pl: Place
        ensures ListOk(Members(t, pl), t.place, pl)
      {
        assert ListOk(Members(s, pl), s.place, pl);
        if pl == Finished {
          ListRemove(s.finished, s.place, Finished, k, Ready);
        } else {
          assert Members(t, pl) == Members(s, pl);
        }
      }
    }
  }

  /** Pids stay below the next one, and init stays running or ready, whoever is moved. */
  ghost predicate Alive(s: State) { Numbered(s) && InitAlive(s) }

  lemma SwitchAlive(s: State, step: Step)
    requires Inv(s) && Current(s) != INIT && (step.SleepStep? || step.BlockStep? || step.ExitStep?)
    ensures Alive(Next(s, step)) && |Next(s, step).running| == 1
  {
    hide Placed;
    SomebodyReady(s);
    assert s.ready[|s.ready| - 1] in s.ready;
  }

  lemma RescheduleAlive(s: State)
    requires Alive(s) && Placed(s) && |s.running| == 1
    ensures Alive(Reschedule(s))
  {
    assert ListOk(Members(s, Running), s.place, Running);
    assert ListOk(Members(s, Ready), s.place, Ready);
    assert s.running[0] in s.running;
    if s.ready != [] {
      var n := |s.ready|;
      assert ([s.running[0]] + s.ready)[n] == s.ready[n - 1] && s.ready[n - 1] in s.ready;
    }
  }

  lemma WakeAlive(s: State, q: Queue)
    requires Alive(s) && Placed(s)
    ensures Alive(Wake(s, q))
  {
    var l := WaitList(s, q);
    assert ListOk(Members(s, Waiting(q)), s.place, Waiting(q));
    assert l != [] ==> l[|l| - 1] in l;
  }

  lemma TickKeepsInv(s: State, tick: nat, subtick: nat)
    requires Inv(s)
    ensures Inv(Tick(s, tick, subtick))
  {
    hide Placed, Sorted, DueCount;
    var n := DueCount(s.sleeping, tick, subtick);
    var t := WakeFirst(s, n);
    SortedTail(s.sleeping, n);
    WakeFirstKeeps(s, n);
    RescheduleKeeps(t);
    RescheduleAlive(t);
  }

  lemma NextKeepsInv(s: State, step: Step)
    requires Inv(s) && Allowed(s, step)
    ensures Inv(Next(s, step))
  {
    hide Placed, Sorted, Insert, DueCount, Numbered, InitAlive;
    match step
    case TickStep(t, st) => TickKeepsInv(s, t, st);
    case Yield => RescheduleKeeps(s); RescheduleAlive(s);
    case SleepStep(t, st) =>
      SomebodyReady(s);
      InsertSorted(s.sleeping, Sleeper(Current(s), t, st));
      SleepKeeps(s, t, st);
      SwitchAlive(s, step);
    case BlockStep(q) => SomebodyReady(s); BlockKeeps(s, q); SwitchAlive(s, step);
    case WakeStep(q) => WakeKeeps(s, q); WakeAlive(s, q);
    case ForkStep => ForkKeeps(s); ForkAlive(s);
    case ExitStep => SomebodyReady(s); ExitKeeps(s); SwitchAlive(s, step);
    case ReapStep(pid) => ReapKeeps(s, pid); ReapAlive(s, pid);
    case CreateStep(q) => CreateKeeps(s, q);
  }

  lemma CreateKeeps(s: State, q: Queue)
    requires Inv(s)
    ensures Inv(Create(s, q))
  {
    hide Sorted;
    forall pl: Place
      ensures ListOk(Members(Create(s, q), pl), s.place, pl)
    {
      assert Members(Create(s, q), pl) == Members(s, pl);
    }
  }

  lemma ForkAlive(s: State)
    requires Alive(s)
    ensures Alive(Fork(s))
  {
  }

  lemma ReapAlive(s: State, pid: Pid)
    requires Alive(s) && Placed(s)
    ensures Alive(Reap(s, pid))
  {
    assert ListOk(Members(s, Finished), s.place, Finished);
  }

  lemma SortedTail(s: seq<Sleeper>, n: nat)
    requires Sorted(s) && n <= |s|
    ensures Sorted(s[n..])
  {
  }

  // ---- Runs ----

  ghost predicate IsRun(run: seq<State>, steps: seq<Step>) {
    && |run| == |steps| + 1
    && forall i :: 0 <= i < |steps| ==> Allowed(run[i], steps[i]) && run[i + 1] == Next(run[i], steps[i])
  }

  /** Every state of every run from boot satisfies the invariant. */
  lemma {:induction false} RunInv(run: seq<State>, steps: seq<Step>, i: nat)
    requires IsRun(run, steps) && run[0] == Start() && i < |run|
    ensures Inv(run[i])
  {
    hide Inv, Next, Start;
    if i == 0 {
      StartInv();
    } else {
      RunInv(run, steps, i - 1);
      assert run[i - 1 + 1] == Next(run[i - 1], steps[i - 1]);
      NextKeepsInv(run[i - 1], steps[i - 1]);
    }
  }

  /** Each existing process is on the list of exactly one place, and on it once. */
  lemma ExactlyOnePlace(s: State, p: Pid, a: Place, b: Place, i: nat, j: nat)
    requires Inv(s) && i < |Members(s, a)| && j < |Members(s, b)| && Members(s, a)[i] == p == Members(s, b)[j]
    ensures a == b && i == j && p in s.place
  {
    assert ListOk(Members(s, a), s.place, a) && ListOk(Members(s, b), s.place, b);
    assert p in Members(s, a) && p in Members(s, b);
  }

  lemma SomePlace(s: State, p: Pid)
    requires Inv(s) && p in s.place
    ensures p in Members(s, s.place[p])
  {
    assert ListOk(Members(s, s.place[p]), s.place, s.place[p]);
  }

  /** Blocking with an empty run queue leaves the process on the wait queue and running at once, so
      `sleep_on` keeps every process in one place exactly when somebody else is ready. */
  lemma BlockNeedsSomebody(s: State, q: Queue)
    requires Inv(s)
    ensures Placed(Block(s, q)) <==> s.ready != []
  {
    if s.ready != [] {
      BlockKeeps(s, q);
    } else {
      var t, p := Block(s, q), Current(s);
      assert Members(t, Running)[0] == p && p in Members(t, Running);
      assert t.place[p] == Waiting(q);
      assert !ListOk(Members(t, Running), t.place, Running);
    }
  }

  /** So does sleeping until a time. */
  lemma SleepNeedsSomebody(s: State, tick: nat, subtick: nat)
    requires Inv(s)
    ensures Placed(Sleep(s, tick, subtick)) <==> s.ready != []
  {
    hide Insert;
    if s.ready != [] {
      SleepKeeps(s, tick, subtick);
    } else {
      var t, p := Sleep(s, tick, subtick), Current(s);
      assert Members(t, Running)[0] == p && p in Members(t, Running);
      assert t.place[p] == Sleeping;
      assert !ListOk(Members(t, Running), t.place, Running);
    }
  }

  // ---- Dispatch order ----

  /** `p` is on the run queue with exactly `k` processes to be dispatched before it. */
  predicate Ahead(s: State, p: Pid, k: nat) { k < |s.ready| && s.ready[|s.ready| - 1 - k] == p }

  /** With anybody ready, these steps take one process off the run queue; the others take none. */
  predicate Dequeues(step: Step) { step.TickStep? || step.Yield? || step.SleepStep? || step.BlockStep? || step.ExitStep? }

  function Count(steps: seq<Step>): nat {
    if steps == [] then 0 else Count(steps[..|steps| - 1]) + (if Dequeues(steps[|steps| - 1]) then 1 else 0)
  }

  lemma WakeFirstAhead(s: State, n: nat, p: Pid, k: nat)
    requires n <= |s.sleeping| && Ahead(s, p, k)
    ensures Ahead(WakeFirst(s, n), p, k)
  {
  }

  /** One step: a dequeue dispatches the process whose turn it is and moves the others up by one;
      nothing else, fork and wake-ups included, changes the order of those already waiting. */
  lemma StepAhead(s: State, step: Step, p: Pid, k: nat)
    requires Ahead(s, p, k)
    ensures var t := Next(s, step);
            if !Dequeues(step) then Ahead(t, p, k)
            else if k == 0 then t.running == [p]
            else Ahead(t, p, k - 1)
  {
    hide DueCount, Insert;
    if step.TickStep? {
      WakeFirstAhead(s, DueCount(s.sleeping, step.tick, step.subtick), p, k);
    }
  }

  /** Over a run: with k others ahead, a process stays ready, moving up at each dequeue, until the
      (k + 1)-th dequeue, which dispatches it. */
  lemma {:induction false} DispatchedInTurn(run: seq<State>, steps: seq<Step>, p: Pid, k: nat, i: nat)
    requires IsRun(run, steps) && Ahead(run[0], p, k) && i <= |steps| && Count(steps[..i]) <= k
    ensures Ahead(run[i], p, k - Count(steps[..i]))
    ensures i < |steps| && Dequeues(steps[i]) && Count(steps[..i]) == k ==> run[i + 1].running == [p]
  {
    hide Next, Ahead, Dequeues;
    if i > 0 {
      assert steps[..i][..i - 1] == steps[..i - 1];
      DispatchedInTurn(run, steps, p, k, i - 1);
      assert run[i - 1 + 1] == Next(run[i - 1], steps[i - 1]);
      StepAhead(run[i - 1], steps[i - 1], p, k - Count(steps[..i - 1]));
    }
    if i < |steps| {
      StepAhead(run[i], steps[i], p, k - Count(steps[..i]));
    }
  }

  // ---- Wake order ----

  /** `p` is on wait queue `q` with exactly `k` processes to be woken before it. */
  predicate Behind(s: State, q: Queue, p: Pid, k: nat) {
    k < |WaitList(s, q)| && WaitList(s, q)[|WaitList(s, q)| - 1 - k] == p
  }

  function Wakes(steps: seq<Step>, q: Queue): nat {
    if steps == [] then 0
    else Wakes(steps[..|steps| - 1], q) + (if steps[|steps| - 1] == WakeStep(q) then 1 else 0)
  }

  lemma {:induction false} WakeFirstWaiting(s: State, n: nat)
    requires n <= |s.sleeping|
    ensures WakeFirst(s, n).waiting == s.waiting
  {
    if n > 0 { WakeFirstWaiting(s, n - 1); }
  }

  /** One step: a wake-up of the queue readies the process that has waited longest; later arrivals,
      and every other step, leave the order of those already waiting alone. */
  lemma WakeAhead(s: State, step: Step, q: Queue, p: Pid, k: nat)
    requires Behind(s, q, p, k)
    ensures var t := Next(s, step);
            if step != WakeStep(q) then Behind(t, q, p, k)
            else if k == 0 then t.ready == [p] + s.ready
            else Behind(t, q, p, k - 1)
  {
    hide DueCount, Insert;
    if step.TickStep? {
      WakeFirstWaiting(s, DueCount(s.sleeping, step.tick, step.subtick));
    }
  }

  /** Over a run: with k others before it, a process stays on its wait queue until exactly the
      (k + 1)-th wake-up of that queue, which puts it on the run queue. */
  lemma {:induction false} WokenInTurn(run: seq<State>, steps: seq<Step>, q: Queue, p: Pid, k: nat, i: nat)
    requires IsRun(run, steps) && Behind(run[0], q, p, k) && i <= |steps| && Wakes(steps[..i], q) <= k
    ensures Behind(run[i], q, p, k - Wakes(steps[..i], q))
    ensures i < |steps| && steps[i] == WakeStep(q) && Wakes(steps[..i], q) == k ==> run[i + 1].ready == [p] + run[i].ready
  {
    hide Next, Behind;
    if i > 0 {
      assert steps[..i][..i - 1] == steps[..i - 1];
      WokenInTurn(run, steps, q, p, k, i - 1);
      assert run[i - 1 + 1] == Next(run[i - 1], steps[i - 1]);
      WakeAhead(run[i - 1], steps[i - 1], q, p, k - Wakes(steps[..i - 1], q));
    }
    if i < |steps| {
      WakeAhead(run[i], steps[i], q, p, k - Wakes(steps[..i], q));
    }
  }

  /** The first process blocking right after boot stays current and is on the wait queue too. */
  lemma BlockExample()
    ensures var t := Block(Start(), 0); t.running == [INIT] && WaitList(t, 0) == [INIT] && !Placed(t)
  {
    StartInv();
    BlockNeedsSomebody(Start(), 0);
  }
}

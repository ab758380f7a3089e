/** The kernel entries of `kernel/process.c` on the linked queues they work on, proved to take the
    steps of the transition system. */
module Kernel {
  import opened List
  import opened SchedSpec
  import opened Sched
  import opened SchedQueues
  import opened SchedEffects
  import Lists = SchedLists

  type Values = map<List<Pid>, seq<Pid>>

  function Held(values: Values, l: List<Pid>): seq<Pid> { if l in values then values[l] else [] }

  function Waits(queues: map<Queue, List<Pid>>, values: Values): map<Queue, seq<Pid>> {
    map q | q in queues :: Held(values, queues[q])
  }

  lemma WaitsKept(queues: map<Queue, List<Pid>>, values: Values, l: List<Pid>, v: seq<Pid>)
    requires forall q <- queues :: queues[q] != l
    ensures Waits(queues, values[l := v]) == Waits(queues, values)
  {
  }

  lemma WaitsChanged(queues: map<Queue, List<Pid>>, values: Values, q: Queue, v: seq<Pid>)
    requires q in queues && forall r <- queues :: r != q ==> queues[r] != queues[q]
    ensures Waits(queues, values[queues[q] := v]) == Waits(queues, values)[q := v]
  {
  }

  lemma WaitsKeys(queues: map<Queue, List<Pid>>, values: Values)
    ensures Waits(queues, values).Keys == queues.Keys
  {
  }

  lemma WaitsAdded(queues: map<Queue, List<Pid>>, values: Values, q: Queue, l: List<Pid>)
    requires forall r <- queues :: queues[r] != l
    ensures Waits(queues[q := l], values[l := []]) == Waits(queues, values)[q := []]
  {
  }

  class Scheduler {
    var current: Pid
    const processQueue: List<Pid>
    const sleepQueue: List<Sleeper>
    const finishedQueue: List<Pid>
    var waitQueues: map<Queue, List<Pid>>
    var nextPid: Pid
    ghost var book: Lists.Book
    ghost var place: map<Pid, Place>

    /** `sched_init` and `process_init`. */
    constructor ()
      ensures Valid() && View() == Start() && Inv(View()) && fresh(book.repr) && fresh(sleepQueue) && sleepQueue.nodes == []
    {
      hide List.Forward, List.Backward, List.Linked, List.Values, Inv, Lists.Valid;
      Lists.EmptyValid();
      var run, finished;
      ghost var b, b';
      run, b := Lists.Create(Lists.Book(map[], map[], {}));
      finished, b' := Lists.Create(b);
      processQueue, finishedQueue, book := run, finished, b';
      sleepQueue := new List();
      current, nextPid, waitQueues := INIT, 2, map[];
      place := map[INIT := Running];
      new;
      StartInv();
    }

    /** The queues are different lists of one family, which share no node; the sleep queue, linked
        forwards only, is beside them. */
    ghost predicate Valid()
      reads `waitQueues, `book, book.repr, sleepQueue, sleepQueue.nodes
      ensures Valid() ==> this !in book.repr
    {
      && Lists.Valid(book) && Lists.Beside(sleepQueue, book.repr) && this !in book.repr
      && processQueue in book.values && finishedQueue in book.values && processQueue != finishedQueue
      && (forall q <- waitQueues :: waitQueues[q] in book.values && waitQueues[q] != processQueue && waitQueues[q] != finishedQueue)
      && (forall q <- waitQueues, r <- waitQueues :: q != r ==> waitQueues[q] != waitQueues[r])
    }

    /** What the lists hold, as the state of the transition system. */
    ghost function View(): State
      reads this, sleepQueue, sleepQueue.nodes
    {
      State([current], Held(book.values, processQueue), sleepQueue.Values(), Waits(waitQueues, book.values),
            Held(book.values, finishedQueue), nextPid, place)
    }

    /** `switch_to_next`; the source asserts that the queue was not empty. */
    method SwitchToNext()
      requires Valid() && View().ready != []
      modifies `current, `place, `book, book.repr
      ensures Valid() && View() == Dispatch(old(View())) && fresh(book.repr - old(book.repr))
    {
      hide Lists.Valid, List.Forward, List.Backward, List.Linked, List.Values, Waits;
      ghost var values := book.values;
      var found;
      found, current, book := Lists.Pop(book, processQueue);
      place := place[current := Running];
      WaitsKept(waitQueues, values, processQueue, book.values[processQueue]);
    }

    method Enqueue(p: Pid)
      requires Valid()
      modifies `book, book.repr
      ensures Valid() && View() == old(View()).(ready := [p] + old(View()).ready) && fresh(book.repr - old(book.repr))
    {
      hide Lists.Valid, List.Forward, List.Backward, List.Linked, List.Values, Waits;
      ghost var values := book.values;
      book := Lists.Push(book, processQueue, p);
      WaitsKept(waitQueues, values, processQueue, book.values[processQueue]);
    }

    method ContextSwitch(reschedule: bool)
      requires Valid()
      modifies `current, `place, `book, book.repr
      ensures Valid() && fresh(book.repr - old(book.repr))
      ensures View() == if reschedule then Reschedule(old(View())) else Switch(old(View()), old(View()).running)
    {
      hide Valid, List.Forward, List.Backward, List.Linked, List.Values, Waits;
      Heads();
      if processQueue.head == null {
        return;
      }
      if reschedule {
        Enqueue(current);
        place := place[current := Ready];
      }
      SwitchToNext();
    }

    /** `sched_available` looks at the head of the run queue. */
    lemma Heads()
      requires Valid()
      ensures processQueue.head == null <==> View().ready == []
    {
    }

    // ---- Kernel entries ----

    /** `sleep_on`. Any process but the first finds somebody to switch to; blocking is sound exactly
        when there is somebody. */
    method SleepOn(q: Queue)
      requires Valid() && Inv(View()) && q in waitQueues
      modifies `current, `place, `book, book.repr
      ensures Valid() && View() == Next(old(View()), BlockStep(q)) && fresh(book.repr - old(book.repr))
      ensures old(current) != INIT ==> Inv(View()) && current != old(current) && old(current) in place
      ensures old(current) != INIT ==>
        && place[old(current)] == Waiting(q) && WaitList(View(), q) == [old(current)] + WaitList(old(View()), q)
        && HandsOver(old(View()), View())
      ensures Placed(View()) <==> old(View()).ready != []
    {
      hide Valid, List.Forward, List.Backward, List.Linked, List.Values, Waits, Inv, Placed;
      ghost var s := View();
      BlockNeedsSomebody(s, q);
      if current != INIT {
        NextKeepsInv(s, BlockStep(q));
        OtherRuns(s);
        BlockEffect(s, q);
      }
      Park(q);
      place := place[current := Waiting(q)];
      ContextSwitch(false);
    }

    /** `list_push_front` on a wait queue. */
    method Park(q: Queue)
      requires Valid() && q in waitQueues
      modifies `book, book.repr
      ensures Valid() && fresh(book.repr - old(book.repr))
      ensures View() == old(View()).(waiting := old(View()).waiting[q := [current] + WaitList(old(View()), q)])
    {
      hide Lists.Valid, List.Forward, List.Backward, List.Linked, List.Values;
      ghost var values := book.values;
      book := Lists.Push(book, waitQueues[q], current);
      WaitsChanged(waitQueues, values, q, book.values[waitQueues[q]]);
    }

    /** `process_sleep_until` with its deadline worked out, then the caller's `context_switch(0)`. */
    method SleepUntil(tick: nat, subtick: nat)
      requires Valid() && Inv(View())
      modifies `current, `place, `book, book.repr, sleepQueue, sleepQueue.nodes
      ensures Valid() && View() == Next(old(View()), SleepStep(tick, subtick)) && fresh(book.repr - old(book.repr))
      ensures old(current) != INIT ==> Inv(View()) && current != old(current) && old(current) in place
      ensures old(current) != INIT ==>
        && place[old(current)] == Sleeping && HandsOver(old(View()), View())
        && multiset(View().sleeping) == multiset(old(View()).sleeping) + multiset{Sleeper(old(current), tick, subtick)}
      ensures Placed(View()) <==> old(View()).ready != []
    {
      hide Valid, List.Forward, List.Backward, List.Linked, List.Values, Waits, Inv, Placed, Insert;
      ghost var s := View();
      SleepNeedsSomebody(s, tick, subtick);
      if current != INIT {
        NextKeepsInv(s, SleepStep(tick, subtick));
        OtherRuns(s);
        SleepEffect(s, tick, subtick);
      }
      EnqueueSleeper(tick, subtick);
      place := place[current := Sleeping];
      ContextSwitch(false);
    }

    method EnqueueSleeper(tick: nat, subtick: nat)
      requires Valid()
      modifies sleepQueue, sleepQueue.nodes
      ensures Valid() && View() == old(View()).(sleeping := Insert(old(View()).sleeping, Sleeper(current, tick, subtick)))
    {
      hide Lists.Valid, List.Forward, List.Backward, List.Linked, List.Values, Waits, Insert;
      Lists.Sleep(book, sleepQueue, current, tick, subtick);
    }

    method ProcessExit()
      requires Valid() && Inv(View()) && current != INIT
      modifies `current, `place, `book, book.repr
      ensures Valid() && View() == Next(old(View()), ExitStep) && Inv(View()) && current != old(current)
      ensures old(current) in place && place[old(current)] == Finished && View().finished == old(View()).finished + [old(current)]
      ensures old(current) !in View().ready && HandsOver(old(View()), View())
      ensures fresh(book.repr - old(book.repr))
    {
      hide Valid, List.Forward, List.Backward, List.Linked, List.Values, Waits, Inv, Placed;
      ghost var s := View();
      NextKeepsInv(s, ExitStep);
      OtherRuns(s);
      ExitEffect(s);
      EnqueueFinished();
      place := place[current := Finished];
      SwitchToNext();
    }

    /** `sched_enqueue_finished`. */
    method EnqueueFinished()
      requires Valid()
      modifies `book, book.repr
      ensures Valid() && View() == old(View()).(finished := old(View()).finished + [current]) && fresh(book.repr - old(book.repr))
    {
      hide Lists.Valid, List.Forward, List.Backward, List.Linked, List.Values, Waits;
      ghost var values := book.values;
      book := Lists.Append(book, finishedQueue, current);
      WaitsKept(waitQueues, values, finishedQueue, book.values[finishedQueue]);
    }

    method WakeupFrom(q: Queue)
      requires Valid() && Inv(View()) && q in waitQueues
      modifies `place, `book, book.repr
      ensures Valid() && View() == Next(old(View()), WakeStep(q)) && Inv(View()) && fresh(book.repr - old(book.repr))
      ensures var l := WaitList(old(View()), q);
              l != [] ==> && place == old(place)[l[|l| - 1] := Ready] && WaitList(View(), q) == l[..|l| - 1]
                          && View().ready == [l[|l| - 1]] + old(View()).ready
    {
      hide Valid, List.Forward, List.Backward, List.Linked, List.Values, Waits, Inv;
      NextKeepsInv(View(), WakeStep(q));
      WakeEffect(View(), q);
      var found, p := Unpark(q);
      if found {
        Enqueue(p);
        place := place[p := Ready];
      }
    }

    /** `list_pop_back` on a wait queue. */
    method Unpark(q: Queue) returns (found: bool, p: Pid)
      requires Valid() && q in waitQueues
      modifies `book, book.repr
      ensures Valid() && fresh(book.repr - old(book.repr)) && found == (WaitList(old(View()), q) != [])
      ensures !found ==> View() == old(View())
      ensures found ==>
        var l := WaitList(old(View()), q);
        p == l[|l| - 1] && View() == old(View()).(waiting := old(View()).waiting[q := l[..|l| - 1]])
    {
      hide Lists.Valid, List.Forward, List.Backward, List.Linked, List.Values;
      ghost var values, l := book.values, book.values[waitQueues[q]];
      found, p, book := Lists.Pop(book, waitQueues[q]);
      WaitsChanged(waitQueues, values, q, book.values[waitQueues[q]]);
      assert found ==> l[..|l| - 1] == book.values[waitQueues[q]];
      assert !found ==> book.values == values;
    }

    /** The timer interrupt: the wake-up loop, then a preemption. */
    method TimerCallback(tick: nat, subtick: nat)
      requires Valid() && Inv(View())
      modifies `current, `place, `book, book.repr, sleepQueue, sleepQueue.nodes
      ensures Valid() && View() == Next(old(View()), TickStep(tick, subtick)) && Inv(View()) && fresh(book.repr - old(book.repr))
      ensures forall x <- old(View()).sleeping :: WokenIfDue(old(View()), View(), tick, subtick, x)
    {
      hide Valid, List.Forward, List.Backward, List.Linked, List.Values, Waits, Inv, DueCount, Woken, WakeFirst;
      ghost var s := View();
      ghost var n := DueCount(s.sleeping, tick, subtick);
      NextKeepsInv(s, TickStep(tick, subtick));
      forall x | x in s.sleeping
        ensures WokenIfDue(s, Next(s, TickStep(tick, subtick)), tick, subtick, x)
      {
        TickWakes(s, tick, subtick, x);
      }
      WakeFirstIs(s, n);
      WakeDue(tick, subtick);
      place := WakeFirst(s, n).place;
      ContextSwitch(true);
    }

    method WakeDue(tick: nat, subtick: nat)
      requires Valid()
      modifies `book, book.repr, sleepQueue, sleepQueue.nodes
      ensures Valid() && fresh(book.repr - old(book.repr))
      ensures var s := old(View());
              var n := DueCount(s.sleeping, tick, subtick);
              View() == s.(sleeping := s.sleeping[n..], ready := Woken(s.sleeping[..n], s.ready))
    {
      hide Lists.Valid, List.Forward, List.Backward, List.Linked, List.Values, Waits, DueCount, Woken;
      ghost var values := book.values;
      book := Lists.WakeupSleepers(book, processQueue, sleepQueue, tick, subtick);
      WaitsKept(waitQueues, values, processQueue, book.values[processQueue]);
    }

    method SysFork() returns (pid: Pid)
      requires Valid() && Inv(View())
      modifies `place, `nextPid, `book, book.repr
      ensures Valid() && View() == Next(old(View()), ForkStep) && Inv(View())
      ensures pid !in old(place) && place == old(place)[pid := Ready] && View().ready == [pid] + old(View()).ready
      ensures fresh(book.repr - old(book.repr))
    {
      hide Valid, List.Forward, List.Backward, List.Linked, List.Values, Waits, Placed, Sorted;
      NextKeepsInv(View(), ForkStep);
      ForkEffect(View());
      pid := nextPid;
      nextPid := nextPid + 1;
      Enqueue(pid);
      place := place[pid := Ready];
    }

    /** One turn of `sys_waitpid`: a finished process is reaped, otherwise the caller yields. */
    method WaitpidTurn(pid: Pid) returns (reaped: bool)
      requires Valid() && Inv(View())
      modifies `current, `place, `book, book.repr
      ensures Valid() && reaped == (pid in old(View()).finished) && Inv(View()) && fresh(book.repr - old(book.repr))
      ensures View() == Next(old(View()), if reaped then ReapStep(pid) else Yield)
      ensures reaped ==> place == old(place) - {pid} && pid !in View().finished
    {
      hide Valid, List.Forward, List.Backward, List.Linked, List.Values, Waits, Inv, Remove, IndexOf;
      NextKeepsInv(View(), ReapStep(pid));
      NextKeepsInv(View(), Yield);
      ReapEffect(View(), pid);
      reaped := TakeFinished(pid);
      if reaped {
        place := place - {pid};
      } else {
        ContextSwitch(true);
      }
    }

    /** `sched_lookup_finished`. */
    method TakeFinished(pid: Pid) returns (found: bool)
      requires Valid()
      modifies `book, book.repr
      ensures Valid() && fresh(book.repr - old(book.repr)) && found == (pid in old(View()).finished)
      ensures var s := old(View());
              View() == if found then s.(finished := Remove(s.finished, IndexOf(s.finished, pid))) else s
    {
      hide Lists.Valid, List.Forward, List.Backward, List.Linked, List.Values, Waits, Remove, IndexOf;
      ghost var values := book.values;
      found, book := Lists.TakeFinished(book, finishedQueue, pid);
      WaitsKept(waitQueues, values, finishedQueue, book.values[finishedQueue]);
    }

    /** `list_create` of a wait queue, as every pipe makes two. */
    method CreateQueue(q: Queue)
      requires Valid() && Inv(View()) && q !in waitQueues
      modifies `waitQueues, `book
      ensures Valid() && View() == Next(old(View()), CreateStep(q)) && Inv(View()) && fresh(book.repr - old(book.repr))
    {
      hide Valid, List.Forward, List.Backward, List.Linked, List.Values, Inv, Waits;
      NextKeepsInv(View(), CreateStep(q));
      WaitsKeys(waitQueues, book.values);
      AddQueue(q);
    }

    method AddQueue(q: Queue)
      requires Valid() && q !in waitQueues
      modifies `waitQueues, `book
      ensures Valid() && View() == old(View()).(waiting := old(View()).waiting[q := []]) && fresh(book.repr - old(book.repr))
    {
      hide Lists.Valid, List.Forward, List.Backward, List.Linked, List.Values, Waits;
      ghost var values, queues := book.values, waitQueues;
      var l;
      l, book := Lists.Create(book);
      waitQueues := waitQueues[q := l];
      WaitsAdded(queues, values, q, l);
    }
  }

  /** Whenever another process than the first runs, somebody is ready, and it is not the running one. */
  lemma OtherRuns(s: State)
    requires Inv(s) && Current(s) != INIT
    ensures s.ready != [] && Current(s) !in s.ready
  {
    SomebodyReady(s);
    var p := Current(s);
    assert ListOk(Members(s, Running), s.place, Running) && ListOk(Members(s, Ready), s.place, Ready);
    assert p in Members(s, Running);
  }
}

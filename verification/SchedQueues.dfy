/** The queue operations of `kernel/sched.c` and the wake-up loop, on the kernel's linked lists. */
module SchedQueues {
  import opened List
  import opened SchedSpec

  /** `sched_enqueue`: the run queue is filled at the head, */
  method SchedEnqueue(queue: List<Pid>, p: Pid)
    requires queue.Linked()
    modifies queue, queue.nodes
    ensures queue.Linked() && queue.Values() == [p] + old(queue.Values())
    ensures |queue.nodes| > 0 && queue.nodes[1..] == old(queue.nodes) && fresh(queue.nodes[0])
  {
    queue.PushFront(p);
  }

  /** and emptied at the tail. */
  method SchedDequeue(queue: List<Pid>) returns (found: bool, p: Pid)
    requires queue.Linked()
    modifies queue, queue.nodes
    ensures queue.Linked() && found == (old(queue.Values()) != [])
    ensures found ==> old(queue.Values()) == queue.Values() + [p]
    ensures !found ==> queue.Values() == []
    ensures queue.nodes == old(if queue.nodes == [] then [] else queue.nodes[..|queue.nodes| - 1])
  {
    ghost var before := queue.Values();
    var n := queue.PopBack();
    if n == null {
      return false, 0;
    }
    assert before == before[..|before| - 1] + [before[|before| - 1]];
    return true, n.value;
  }

  /** The scan of `sleep_enqueue`: the last sleeper that is not later, null if there is none. */
  method FindSleepSlot(sleep: List<Sleeper>, x: Sleeper) returns (prev: Node?<Sleeper>, ghost k: nat)
    requires sleep.Forward()
    ensures k == Slot(sleep.Values(), x) <= |sleep.nodes| && prev == if k == 0 then null else sleep.nodes[k - 1]
  {
    ghost var all := sleep.Values();
    prev, k := null, 0;
    var node := sleep.head;
    while node != null
      invariant 0 <= k <= |all| == |sleep.nodes|
      invariant node == if k < |all| then sleep.nodes[k] else null
      invariant prev == if k == 0 then null else sleep.nodes[k - 1]
      invariant Slot(all, x) == k + Slot(all[k..], x)
      decreases |all| - k
    {
      assert node.value == all[k];
      if node.value.tick > x.tick || (node.value.tick == x.tick && node.value.subtick > x.subtick) {
        break;
      }
      assert all[k..][1..] == all[k + 1..];
      prev := node;
      node := node.next;
      k := k + 1;
    }
  }

  /** `sleep_enqueue`. Only the forward chain is claimed: `list_insert_after` leaves back links stale. */
  method SleepEnqueue(sleep: List<Sleeper>, pid: Pid, seconds: nat, subseconds: nat)
    requires sleep.Forward()
    modifies sleep, sleep.nodes
    ensures sleep.Forward() && sleep.Values() == Insert(old(sleep.Values()), Sleeper(pid, seconds, subseconds))
    ensures sleep.length == old(sleep.length) + 1
    ensures forall i :: 0 <= i < |sleep.nodes| ==> sleep.nodes[i] in old(sleep.nodes) || fresh(sleep.nodes[i])
  {
    hide Slot, List.Backward, List.Linked;
    var x := Sleeper(pid, seconds, subseconds);
    var prev, k := FindSleepSlot(sleep, x);
    ghost var before := sleep.nodes;
    sleep.InsertAfter(prev, x, k);
    assert sleep.nodes == before[..k] + [sleep.nodes[k]] + before[k..];
  }

  /** The test of the wake-up loop: there is a sleeper and the first one is due. */
  method HeadDue(sleep: List<Sleeper>, ticks: nat, subticks: nat) returns (due: bool)
    requires sleep.Forward()
    ensures due == (sleep.Values() != [] && Due(sleep.Values()[0], ticks, subticks))
  {
    due := sleep.length != 0 && Due(sleep.head.value, ticks, subticks);
  }

  /** `sched_lookup_finished`: unlinks the first finished process with the pid, if there is one. */
  method LookupFinished(finished: List<Pid>, pid: Pid) returns (found: bool)
    requires finished.Linked()
    modifies finished, finished.nodes
    ensures finished.Linked() && found == (pid in old(finished.Values()))
    ensures !found ==> finished.Values() == old(finished.Values())
    ensures found ==> finished.Values() == Remove(old(finished.Values()), IndexOf(old(finished.Values()), pid))
    ensures finished.nodes == old(finished.nodes)
         || exists k :: 0 <= k < |old(finished.nodes)| && finished.nodes == old(finished.nodes)[..k] + old(finished.nodes)[k + 1..]
  {
    var n := finished.head;
    ghost var all, k := finished.Values(), 0;
    assert all[0..] == all;
    while n != null && n.value != pid
      invariant 0 <= k <= |all| == |finished.nodes| && finished.Linked() && finished.Values() == all
      invariant n == if k < |all| then finished.nodes[k] else null
      invariant pid !in all[..k] && (pid in all ==> IndexOf(all, pid) == k + IndexOf(all[k..], pid))
      modifies {}
      decreases |all| - k
    {
      assert n.value == all[k];
      assert all[k..][1..] == all[k + 1..];
      n := n.next;
      k := k + 1;
    }
    found := n != null;
    if found {
      assert all[k] == pid;
      finished.Delete(n, k);
    }
  }
}

/** What the scheduler's queue operations compute, on sequences. Queues are listed from head to tail;
    the run queue is filled at the head and emptied at the tail. */
module SchedSpec {
  type Pid = nat
  datatype Sleeper = Sleeper(pid: Pid, tick: nat, subtick: nat)

  /** Deadline strictly later than the given time. */
  predicate Later(a: Sleeper, tick: nat, subtick: nat) { a.tick > tick || (a.tick == tick && a.subtick > subtick) }

  /** Deadline at or before the given time. */
  predicate Due(a: Sleeper, tick: nat, subtick: nat) { a.tick < tick || (a.tick == tick && a.subtick <= subtick) }

  predicate NotAfter(a: Sleeper, b: Sleeper) { !Later(a, b.tick, b.subtick) }

  predicate Sorted(s: seq<Sleeper>) { forall i, j :: 0 <= i < j < |s| ==> NotAfter(s[i], s[j]) }

  /** Where a new sleeper goes: before the first strictly later deadline, so after equal ones. */
  function Slot(s: seq<Sleeper>, x: Sleeper): (k: nat)
    ensures k <= |s| && (k < |s| ==> Later(s[k], x.tick, x.subtick))
    ensures forall i :: 0 <= i < k ==> NotAfter(s[i], x)
  {
    if s == [] || Later(s[0], x.tick, x.subtick) then 0 else 1 + Slot(s[1..], x)
  }

  function Insert(s: seq<Sleeper>, x: Sleeper): seq<Sleeper> { s[..Slot(s, x)] + [x] + s[Slot(s, x)..] }

  /** Length of the longest prefix of due sleepers. */
  function DueCount(s: seq<Sleeper>, tick: nat, subtick: nat): (k: nat)
    ensures k <= |s| && (k < |s| ==> !Due(s[k], tick, subtick))
    ensures forall i :: 0 <= i < k ==> Due(s[i], tick, subtick)
  {
    if s == [] || !Due(s[0], tick, subtick) then 0 else 1 + DueCount(s[1..], tick, subtick)
  }

  /** The run queue after `sched_enqueue` of each due sleeper in turn. */
  function Woken(due: seq<Sleeper>, queue: seq<Pid>): seq<Pid> {
    if due == [] then queue else [due[|due| - 1].pid] + Woken(due[..|due| - 1], queue)
  }

  function Remove<T>(s: seq<T>, k: nat): seq<T>
    requires k < |s|
  {
    s[..k] + s[k + 1..]
  }

  /** Position of the first occurrence, or the length. */
  function IndexOf<T(==)>(s: seq<T>, x: T): (k: nat)
    ensures k <= |s| && (k < |s| ==> s[k] == x) && x !in s[..k] && (x in s ==> k < |s|)
  {
    if s == [] || s[0] == x then 0 else 1 + IndexOf(s[1..], x)
  }

  lemma InsertSorted(s: seq<Sleeper>, x: Sleeper)
    requires Sorted(s)
    ensures Sorted(Insert(s, x))
  {
    var k := Slot(s, x);
    SplitSorted(s, k, x);
  }

  lemma SplitSorted(s: seq<Sleeper>, k: nat, x: Sleeper)
    requires Sorted(s) && k <= |s| && (k < |s| ==> Later(s[k], x.tick, x.subtick))
    requires forall i :: 0 <= i < k ==> NotAfter(s[i], x)
    ensures Sorted(s[..k] + [x] + s[k..])
  {
    var t := s[..k] + [x] + s[k..];
    forall i, j | 0 <= i < j < |t|
      ensures NotAfter(t[i], t[j])
    {
      if i < k < j {
        assert NotAfter(s[i], s[j - 1]);
      } else if k < i {
        assert NotAfter(s[i - 1], s[j - 1]);
      } else if i == k {
        assert k == j - 1 || NotAfter(s[k], s[j - 1]);
      }
    }
  }

  lemma InsertPermutes(s: seq<Sleeper>, x: Sleeper)
    ensures multiset(Insert(s, x)) == multiset(s) + multiset{x}
  {
    assert s == s[..Slot(s, x)] + s[Slot(s, x)..];
  }

  /** On a sorted queue the due prefix is exactly the due entries, and the rest stays sorted. */
  lemma DueIsPrefix(s: seq<Sleeper>, tick: nat, subtick: nat, i: nat)
    requires Sorted(s) && i < |s|
    ensures Due(s[i], tick, subtick) <==> i < DueCount(s, tick, subtick)
    ensures Sorted(s[DueCount(s, tick, subtick)..])
  {
    var k := DueCount(s, tick, subtick);
    if k < i {
      assert NotAfter(s[k], s[i]);
    }
  }

  lemma WakeStep(all: seq<Sleeper>, k: nat, queue: seq<Pid>, tick: nat, subtick: nat)
    requires k < |all| && Due(all[k], tick, subtick)
    ensures Woken(all[..k + 1], queue) == [all[k].pid] + Woken(all[..k], queue)
    ensures DueCount(all[k..], tick, subtick) == 1 + DueCount(all[k + 1..], tick, subtick)
    ensures all[k..][1..] == all[k + 1..]
  {
    assert all[..k + 1][..k] == all[..k];
    assert all[k..][1..] == all[k + 1..];
  }

  lemma NothingWoken(s: seq<Sleeper>, queue: seq<Pid>, tick: nat, subtick: nat)
    ensures Woken([], queue) == queue
    ensures s == [] || !Due(s[0], tick, subtick) ==> DueCount(s, tick, subtick) == 0
  {
  }

  /** Woken processes leave the tail of the run queue in deadline order, after everything already there. */
  lemma {:induction false} WokenOrder(due: seq<Sleeper>, queue: seq<Pid>)
    ensures |Woken(due, queue)| == |due| + |queue| && Woken(due, queue)[|due|..] == queue
    ensures forall i :: 0 <= i < |due| ==> Woken(due, queue)[|due| - 1 - i] == due[i].pid
  {
    if due != [] {
      WokenOrder(due[..|due| - 1], queue);
    }
  }
}

/** The kernel's process queues as a family of linked lists that share no node. An operation on one
    queue leaves the others as they are. */
module SchedLists {
  import opened Seqs
  import opened List
  import opened SchedSpec
  import opened SchedQueues

  type Nodes = seq<Node<Pid>>
  type Cells = map<List<Pid>, Nodes>

  ghost predicate Apart(a: Nodes, b: Nodes) { forall i, j :: 0 <= i < |a| && 0 <= j < |b| ==> a[i] != b[j] }

  /** The lists and their nodes are all in `repr`, and no two lists share a node. */
  ghost predicate Disjoint(cells: Cells, repr: set<object>) {
    && (forall l <- cells :: l in repr && forall i :: 0 <= i < |cells[l]| ==> cells[l][i] in repr)
    && (forall a <- cells, b <- cells :: a != b ==> Apart(cells[a], cells[b]))
  }

  lemma OthersApart(cells: Cells, repr: set<object>, l: List<Pid>)
    requires Disjoint(cells, repr) && l in cells
    ensures l in repr && forall i :: 0 <= i < |cells[l]| ==> cells[l][i] in repr
    ensures forall a <- cells :: a != l ==> Apart(cells[a], cells[l])
  {
  }

  /** A list that gains only new nodes stays apart from the others. */
  lemma StillDisjoint(cells: Cells, repr: set<object>, l: List<Pid>, nodes: Nodes, added: set<object>)
    requires Disjoint(cells, repr) && l in cells && added !! repr
    requires forall i :: 0 <= i < |nodes| ==> nodes[i] in cells[l] || nodes[i] in added
    ensures Disjoint(cells[l := nodes], repr + added)
  {
    hide Apart;
    var cells' := cells[l := nodes];
    forall a, b | a in cells' && b in cells' && a != b
      ensures Apart(cells'[a], cells'[b])
    {
      if a == l {
        ApartMore(cells[a], nodes, cells[b], repr, added);
      } else if b == l {
        ApartMore(cells[b], nodes, cells[a], repr, added);
      }
    }
  }

  lemma ApartMore(a: Nodes, a': Nodes, b: Nodes, repr: set<object>, added: set<object>)
    requires Apart(a, b) && added !! repr && (forall i :: 0 <= i < |b| ==> b[i] in repr)
    requires forall i :: 0 <= i < |a'| ==> a'[i] in a || a'[i] in added
    ensures Apart(a', b) && Apart(b, a')
  {
  }

  /** What each list of a family holds, and the objects they are made of. */
  datatype Book = Book(cells: Cells, values: map<List<Pid>, seq<Pid>>, repr: set<object>)

  ghost predicate Valid(b: Book)
    reads b.repr
  {
    && b.cells.Keys == b.values.Keys && Disjoint(b.cells, b.repr)
    && (forall l <- b.cells :: l.nodes == b.cells[l] && l.Linked() && l.Values() == b.values[l])
  }

  lemma EmptyValid()
    ensures Valid(Book(map[], map[], {}))
  {
  }

  /** The book with what list `l` holds now. */
  ghost function Updated(b: Book, l: List<Pid>, added: set<object>): Book
    reads l, l.nodes
  {
    Book(b.cells[l := l.nodes], b.values[l := l.Values()], b.repr + added)
  }

  lemma UpdatedValid(b: Book, l: List<Pid>, added: set<object>)
    requires b.cells.Keys == b.values.Keys && Disjoint(b.cells, b.repr) && l in b.values && added !! b.repr && l.Linked()
    requires forall a <- b.cells :: a != l ==> a.nodes == b.cells[a] && a.Linked() && a.Values() == b.values[a]
    requires forall i :: 0 <= i < |l.nodes| ==> l.nodes[i] in b.cells[l] || l.nodes[i] in added
    ensures Valid(Updated(b, l, added))
  {
    hide List.Forward, List.Backward, List.Linked, List.Values, Disjoint;
    StillDisjoint(b.cells, b.repr, l, l.nodes, added);
  }

  /** `sched_enqueue`, or `list_push_front` on a wait queue. */
  method Push(ghost b: Book, l: List<Pid>, p: Pid) returns (ghost b': Book)
    requires Valid(b) && l in b.values
    modifies b.repr
    ensures Valid(b') && fresh(b'.repr - b.repr) && b.repr <= b'.repr && b'.values == b.values[l := [p] + b.values[l]]
  {
    hide List.Forward, List.Backward, List.Linked, List.Values, Disjoint;
    OthersApart(b.cells, b.repr, l);
    SchedEnqueue(l, p);
    assert forall a <- b.cells :: a != l ==> a.nodes == b.cells[a] && a.Linked() && a.Values() == b.values[a];
    UpdatedValid(b, l, {l.nodes[0]});
    b' := Updated(b, l, {l.nodes[0]});
  }

  /** `sched_dequeue`, or `list_pop_back` on a wait queue. */
  method Pop(ghost b: Book, l: List<Pid>) returns (found: bool, p: Pid, ghost b': Book)
    requires Valid(b) && l in b.values
    modifies b.repr
    ensures Valid(b') && b'.repr == b.repr && l in b'.values && b'.values == b.values[l := b'.values[l]]
    ensures found == (b.values[l] != []) && b.values[l] == b'.values[l] + (if found then [p] else [])
  {
    hide List.Forward, List.Backward, List.Linked, List.Values, Disjoint;
    OthersApart(b.cells, b.repr, l);
    found, p := SchedDequeue(l);
    assert forall a <- b.cells :: a != l ==> a.nodes == b.cells[a] && a.Linked() && a.Values() == b.values[a];
    UpdatedValid(b, l, {});
    b' := Updated(b, l, {});
  }

  /** `sched_enqueue_finished`. */
  method Append(ghost b: Book, l: List<Pid>, p: Pid) returns (ghost b': Book)
    requires Valid(b) && l in b.values
    modifies b.repr
    ensures Valid(b') && fresh(b'.repr - b.repr) && b.repr <= b'.repr && b'.values == b.values[l := b.values[l] + [p]]
  {
    hide List.Forward, List.Backward, List.Linked, List.Values, Disjoint;
    OthersApart(b.cells, b.repr, l);
    l.PushBack(p);
    assert forall a <- b.cells :: a != l ==> a.nodes == b.cells[a] && a.Linked() && a.Values() == b.values[a];
    ghost var n := |l.nodes| - 1;
    assert l.nodes == l.nodes[..n] + [l.nodes[n]];
    UpdatedValid(b, l, {l.nodes[n]});
    b' := Updated(b, l, {l.nodes[n]});
  }

  /** `sched_lookup_finished`. */
  method TakeFinished(ghost b: Book, l: List<Pid>, pid: Pid) returns (found: bool, ghost b': Book)
    requires Valid(b) && l in b.values
    modifies b.repr
    ensures Valid(b') && b'.repr == b.repr && found == (pid in b.values[l])
    ensures b'.values == if found then b.values[l := Remove(b.values[l], IndexOf(b.values[l], pid))] else b.values
  {
    hide List.Forward, List.Backward, List.Linked, List.Values, Disjoint, Remove, IndexOf;
    OthersApart(b.cells, b.repr, l);
    found := LookupFinished(l, pid);
    assert forall a <- b.cells :: a != l ==> a.nodes == b.cells[a] && a.Linked() && a.Values() == b.values[a];
    UpdatedValid(b, l, {});
    b' := Updated(b, l, {});
    assert !found ==> b'.values == b.values;
  }

  /** The sleep queue is linked forwards and lies outside the family. */
  ghost predicate Beside(sleep: List<Sleeper>, repr: set<object>)
    reads sleep, sleep.nodes
  {
    sleep.Forward() && sleep !in repr && forall i :: 0 <= i < |sleep.nodes| ==> sleep.nodes[i] !in repr
  }

  /** One turn of the wake-up loop: the head of the sleep queue joins the run queue. */
  method WakeHead(ghost b: Book, queue: List<Pid>, sleep: List<Sleeper>) returns (ghost b': Book)
    requires Valid(b) && queue in b.values && Beside(sleep, b.repr) && sleep.Values() != []
    modifies b.repr, sleep, sleep.nodes
    ensures Valid(b') && fresh(b'.repr - b.repr) && b.repr <= b'.repr && Beside(sleep, b'.repr)
    ensures b'.values == b.values[queue := [old(sleep.Values())[0].pid] + b.values[queue]]
    ensures sleep.Values() == old(sleep.Values())[1..] && sleep.length == old(sleep.length) - 1
    ensures |old(sleep.nodes)| > 0 && sleep.nodes == old(sleep.nodes)[1..]
  {
    hide List.Backward, List.Linked, Valid;
    var p := sleep.head.value.pid;
    b' := Push(b, queue, p);
    var n := sleep.PopFront();
  }

  /** `process_wakeup_sleepers`: moves the due prefix of the sleep queue to the run queue, in order. */
  method WakeupSleepers(ghost b: Book, queue: List<Pid>, sleep: List<Sleeper>, ticks: nat, subticks: nat) returns (ghost b': Book)
    requires Valid(b) && queue in b.values && Beside(sleep, b.repr)
    modifies b.repr, sleep, sleep.nodes
    ensures Valid(b') && fresh(b'.repr - b.repr) && b.repr <= b'.repr && Beside(sleep, b'.repr)
    ensures var all := old(sleep.Values());
            var k := DueCount(all, ticks, subticks);
            && sleep.Values() == all[k..] && sleep.length == old(sleep.length) - k
            && b'.values == b.values[queue := Woken(all[..k], b.values[queue])]
  {
    hide List.Forward, List.Backward, List.Linked, List.Values, DueCount, Woken, Due, Valid;
    ghost var all, run, k := sleep.Values(), b.values[queue], 0;
    ghost var sleepers, n := sleep.nodes, sleep.length;
    b' := b;
    assert all[..0] == [] && all[0..] == all;
    NothingWoken(all, run, ticks, subticks);
    var due := HeadDue(sleep, ticks, subticks);
    while due
      invariant 0 <= k <= |all| && Valid(b') && fresh(b'.repr - b.repr) && b.repr <= b'.repr && Beside(sleep, b'.repr)
      invariant sleep.Values() == all[k..] && sleep.length == n - k && b'.values == b.values[queue := Woken(all[..k], run)]
      invariant k <= |sleepers| && sleep.nodes == sleepers[k..]
      invariant due == (all[k..] != [] && Due(all[k..][0], ticks, subticks))
      invariant DueCount(all, ticks, subticks) == k + DueCount(all[k..], ticks, subticks)
      decreases |all| - k
    {
      WakeStep(all, k, run, ticks, subticks);
      b' := WakeHead(b', queue, sleep);
      k := k + 1;
      due := HeadDue(sleep, ticks, subticks);
    }
    NothingWoken(all[k..], run, ticks, subticks);
  }

  /** `sleep_enqueue` leaves the family alone. */
  method Sleep(ghost b: Book, sleep: List<Sleeper>, pid: Pid, tick: nat, subtick: nat)
    requires Valid(b) && Beside(sleep, b.repr)
    modifies sleep, sleep.nodes
    ensures Valid(b) && Beside(sleep, b.repr) && sleep.Values() == Insert(old(sleep.Values()), Sleeper(pid, tick, subtick))
    ensures forall i :: 0 <= i < |sleep.nodes| ==> sleep.nodes[i] in old(sleep.nodes) || fresh(sleep.nodes[i])
  {
    hide List.Forward, List.Backward, List.Linked, List.Values, Valid, Insert;
    SleepEnqueue(sleep, pid, tick, subtick);
  }

  /** `list_create`: a new, empty list joins the family. */
  method Create(ghost b: Book) returns (l: List<Pid>, ghost b': Book)
    requires Valid(b)
    ensures Valid(b') && fresh(l) && l !in b.values && b'.values == b.values[l := []] && b'.repr == b.repr + {l}
  {
    hide List.Forward, List.Backward, List.Linked, List.Values;
    l := new List();
    b' := Book(b.cells[l := []], b.values[l := []], b.repr + {l});
  }
}

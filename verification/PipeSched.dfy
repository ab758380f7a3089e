/** A pipe and the scheduler together: the passes of the reader and the writer wake and block through
    the pipe's two wait queues, while every other process does as it likes. */
module PipeSched {
  import opened SchedSpec
  import Sched
  import Pipe = PipeProtocol

  /** The two processes and their wait queues. */
  datatype Ends = Ends(reader: Pid, writer: Pid, readers: Sched.Queue, writers: Sched.Queue)

  datatype State = State(sched: Sched.State, pipe: Pipe.State)

  datatype Step = Other(step: Sched.Step) | Call(call: Pipe.Step)

  predicate Proper(e: Ends) {
    e.reader != e.writer && e.readers != e.writers && e.reader != Sched.INIT && e.writer != Sched.INIT
  }

  /** The process that makes a call on the pipe. */
  function Caller(e: Ends, call: Pipe.Step): Pid {
    if call.StartRead? || call.ReadPass? then e.reader else e.writer
  }

  /** The scheduler may do anything but touch the pipe's queues; a call is made by the running process. */
  predicate Enabled(e: Ends, s: State, step: Step) {
    match step
    case Other(o) =>
      && Sched.Allowed(s.sched, o)
      && (o.BlockStep? || o.WakeStep? ==> o.q != e.readers && o.q != e.writers)
    case Call(call) =>
      s.sched.running == [Caller(e, call)] && Pipe.Enabled(s.pipe, call) && Pipe.NonZero(call)
  }

  /** `wakeup_from` the other side's queue, and `sleep_on` one's own if the pass ends asleep. */
  function Scheduled(s: Sched.State, wake: Sched.Queue, own: Sched.Queue, asleep: bool): Sched.State {
    var t := Sched.Wake(s, wake);
    if asleep then Sched.Block(t, own) else t
  }

  function Next(e: Ends, s: State, step: Step): State
    requires Enabled(e, s, step)
  {
    match step
    case Other(o) => s.(sched := Sched.Next(s.sched, o))
    case Call(call) =>
      var pipe := Pipe.Next(s.pipe, call);
      match call
      case ReadPass => State(Scheduled(s.sched, e.writers, e.readers, pipe.readerWaiting), pipe)
      case WritePass => State(Scheduled(s.sched, e.readers, e.writers, pipe.writerWaiting), pipe)
      case _ => s.(pipe := pipe)
  }

  /** The flags of the pipe say exactly who is on its queues. */
  ghost predicate Linked(e: Ends, s: State) {
    && Sched.WaitList(s.sched, e.readers) == (if s.pipe.readerWaiting then [e.reader] else [])
    && Sched.WaitList(s.sched, e.writers) == (if s.pipe.writerWaiting then [e.writer] else [])
  }

  ghost predicate Inv(e: Ends, s: State) { Sched.Inv(s.sched) && Pipe.Inv(s.pipe) && Linked(e, s) }

  /** Only blocking on a queue and waking from it change it. */
  lemma WaitListKept(s: Sched.State, step: Sched.Step, q: Sched.Queue)
    requires step != Sched.BlockStep(q) && step != Sched.WakeStep(q)
    ensures Sched.WaitList(Sched.Next(s, step), q) == Sched.WaitList(s, q)
  {
    hide DueCount, Insert;
    if step.TickStep? {
      Sched.WakeFirstWaiting(s, DueCount(s.sleeping, step.tick, step.subtick));
    }
  }

  /** A pass empties the other side's queue and leaves its own with the caller exactly if it sleeps. */
  lemma ScheduledQueues(s: Sched.State, wake: Sched.Queue, own: Sched.Queue, p: Pid, asleep: bool)
    requires Sched.Inv(s) && s.running == [p] && p != Sched.INIT && wake != own
    requires |Sched.WaitList(s, wake)| <= 1 && Sched.WaitList(s, own) == []
    ensures var t := Scheduled(s, wake, own, asleep);
            && Sched.Inv(t) && Sched.WaitList(t, wake) == [] && Sched.WaitList(t, own) == (if asleep then [p] else [])
  {
    hide Sched.Inv;
    Sched.NextKeepsInv(s, Sched.WakeStep(wake));
    var t := Sched.Next(s, Sched.WakeStep(wake));
    if asleep {
      Sched.NextKeepsInv(t, Sched.BlockStep(own));
    }
  }

  lemma NextKeepsInv(e: Ends, s: State, step: Step)
    requires Proper(e) && Inv(e, s) && Enabled(e, s, step)
    ensures Inv(e, Next(e, s, step))
  {
    hide Sched.Inv, Pipe.Inv, Sched.Next, Scheduled;
    match step
    case Other(o) =>
      Sched.NextKeepsInv(s.sched, o);
      WaitListKept(s.sched, o, e.readers);
      WaitListKept(s.sched, o, e.writers);
    case Call(call) =>
      Pipe.NextKeepsInv(s.pipe, call);
      var t := Pipe.Next(s.pipe, call);
      match call
      case ReadPass => ScheduledQueues(s.sched, e.writers, e.readers, e.reader, t.readerWaiting);
      case WritePass => ScheduledQueues(s.sched, e.readers, e.writers, e.writer, t.writerWaiting);
      case _ =>
  }

  ghost predicate IsRun(e: Ends, run: seq<State>, steps: seq<Step>) {
    && |run| == |steps| + 1
    && forall i :: 0 <= i < |steps| ==> Enabled(e, run[i], steps[i]) && run[i + 1] == Next(e, run[i], steps[i])
  }

  /** In every run from a boot and an empty pipe, whatever the other processes do. */
  lemma {:induction false} RunInv(e: Ends, run: seq<State>, steps: seq<Step>, i: nat)
    requires Proper(e) && IsRun(e, run, steps) && i < |run|
    requires run[0] == State(Sched.Start(), Pipe.Start(run[0].pipe.size)) && run[0].pipe.size >= 2
    ensures Inv(e, run[i])
  {
    hide Next, Enabled, Inv;
    if i == 0 {
      Sched.StartInv();
      StartLinked(e, run[0].pipe.size);
    } else {
      RunInv(e, run, steps, i - 1);
      assert run[i - 1 + 1] == Next(e, run[i - 1], steps[i - 1]);
      NextKeepsInv(e, run[i - 1], steps[i - 1]);
    }
  }

  lemma StartLinked(e: Ends, size: nat)
    requires size >= 2
    ensures Inv(e, State(Sched.Start(), Pipe.Start(size)))
  {
    Sched.StartInv();
  }

  /** No wake-up is lost: the reader and the writer are never both on the pipe's queues, and who is
      there has a reason, an empty ring or a full one. */
  lemma NeverBothAsleep(e: Ends, s: State)
    requires Proper(e) && Inv(e, s)
    ensures Sched.WaitList(s.sched, e.readers) == [] || Sched.WaitList(s.sched, e.writers) == []
    ensures e.reader in Sched.WaitList(s.sched, e.readers) ==> s.pipe.ring == []
    ensures e.writer in Sched.WaitList(s.sched, e.writers) ==> |s.pipe.ring| == s.pipe.size - 1
  {
    hide Sched.Inv;
  }

  /** A process that runs with its request open can take its pass: it is not on the pipe's queue. */
  lemma RunningCanPass(e: Ends, s: State)
    requires Proper(e) && Inv(e, s)
    ensures s.sched.running == [e.reader] && s.pipe.reading ==> Enabled(e, s, Call(Pipe.ReadPass))
    ensures s.sched.running == [e.writer] && s.pipe.pending != [] ==> Enabled(e, s, Call(Pipe.WritePass))
  {
    hide Sched.Inv, Pipe.Inv;
    if s.sched.running == [e.reader] && s.pipe.readerWaiting {
      Sched.ExactlyOnePlace(s.sched, e.reader, Sched.Running, Sched.Waiting(e.readers), 0, 0);
    }
    if s.sched.running == [e.writer] && s.pipe.writerWaiting {
      Sched.ExactlyOnePlace(s.sched, e.writer, Sched.Running, Sched.Waiting(e.writers), 0, 0);
    }
  }
}

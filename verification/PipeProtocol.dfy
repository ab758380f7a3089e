/** One reader and one writer blocking on a pipe. A pass runs without interruption up to its
    `sleep_on`, because system calls enter through an interrupt gate; the passes of the two
    processes interleave in any order. */
module PipeProtocol {
  import opened CInt
  import opened Pipe

  /** `want` is the size of the reader's open request, `pending` what the writer has still to write. */
  datatype State = State(
    size: nat,
    ring: seq<Byte>,
    written: seq<Byte>,
    consumed: seq<Byte>,
    reading: bool,
    want: nat,
    pending: seq<Byte>,
    readerWaiting: bool,
    writerWaiting: bool)

  datatype Step = StartRead(n: nat) | ReadPass | StartWrite(data: seq<Byte>) | WritePass

  /** A process calls when it has no request open; a pass needs an open request and a process that is not asleep. */
  predicate Enabled(s: State, step: Step) {
    match step
    case StartRead(n) => !s.reading
    case ReadPass => s.reading && !s.readerWaiting
    case StartWrite(data) => s.pending == []
    case WritePass => s.pending != [] && !s.writerWaiting
  }

  /** `pipe_available`. */
  function Room(s: State): nat { if |s.ring| < s.size then s.size - 1 - |s.ring| else 0 }

  function Next(s: State, step: Step): State
    requires Enabled(s, step)
  {
    match step
    case StartRead(n) => s.(reading := true, want := n)
    case ReadPass =>
      var k := Min(|s.ring|, s.want);
      s.(ring := s.ring[k..], consumed := s.consumed + s.ring[..k],
         writerWaiting := false, readerWaiting := k == 0, reading := k == 0)
    case StartWrite(data) => s.(pending := data)
    case WritePass =>
      var k := Min(Room(s), |s.pending|);
      s.(ring := s.ring + s.pending[..k], written := s.written + s.pending[..k], pending := s.pending[k..],
         readerWaiting := false, writerWaiting := k < |s.pending|)
  }

  function Start(size: nat): State { State(size, [], [], [], false, 0, [], false, false) }

  /** The ring is a FIFO of at most size - 1 bytes. */
  predicate Fifo(s: State) { |s.ring| < s.size && s.written == s.consumed + s.ring }

  /** A sleeping process is one with an open request that cannot make progress. */
  predicate Waits(s: State) {
    && (s.readerWaiting ==> s.reading && s.ring == [])
    && (s.writerWaiting ==> s.pending != [] && |s.ring| == s.size - 1)
    && (s.reading ==> s.want > 0)
  }

  predicate Inv(s: State) { s.size >= 2 && Fifo(s) && Waits(s) }

  /** Requests are for at least one byte. */
  predicate NonZero(step: Step) { step.StartRead? ==> step.n > 0 }

  lemma NextKeepsInv(s: State, step: Step)
    requires Inv(s) && Enabled(s, step) && NonZero(step)
    ensures Inv(Next(s, step))
  {
    match step
    case ReadPass =>
      var k := Min(|s.ring|, s.want);
      assert s.ring == s.ring[..k] + s.ring[k..];
    case WritePass =>
      var k := Min(Room(s), |s.pending|);
      assert s.written + s.pending[..k] == s.consumed + (s.ring + s.pending[..k]);
    case _ =>
  }

  ghost predicate IsRun(run: seq<State>, steps: seq<Step>) {
    && |run| == |steps| + 1
    && forall i :: 0 <= i < |steps| ==> Enabled(run[i], steps[i]) && run[i + 1] == Next(run[i], steps[i])
  }

  /** In every state of every run with non-zero requests on a ring of at least two bytes: bytes come
      out in the order they went in, a waiting reader means an empty ring, a waiting writer a full
      one, and so the two never wait together. */
  lemma {:induction false} RunInv(run: seq<State>, steps: seq<Step>, i: nat)
    requires IsRun(run, steps) && i < |run| && run[0] == Start(run[0].size) && run[0].size >= 2
    requires forall step <- steps :: NonZero(step)
    ensures Inv(run[i]) && run[i].size == run[0].size
    ensures !(run[i].readerWaiting && run[i].writerWaiting)
  {
    if i > 0 {
      RunInv(run, steps, i - 1);
      assert run[i - 1 + 1] == Next(run[i - 1], steps[i - 1]);
      assert steps[i - 1] in steps;
      NextKeepsInv(run[i - 1], steps[i - 1]);
    }
  }

  /** All bytes writers have asked for, in order. */
  function Requested(steps: seq<Step>): seq<Byte> {
    if steps == [] then []
    else
      var n := |steps| - 1;
      Requested(steps[..n]) + (if steps[n].StartWrite? then steps[n].data else [])
  }

  /** In every run what the reader got, what is buffered and what is still to be written are, in this
      order, exactly what writers asked for: no byte is lost, doubled or reordered. */
  lemma {:induction false} RunDelivers(run: seq<State>, steps: seq<Step>, i: nat)
    requires IsRun(run, steps) && i < |run| && run[0] == Start(run[0].size) && run[0].size >= 2
    requires forall step <- steps :: NonZero(step)
    ensures run[i].consumed + run[i].ring + run[i].pending == Requested(steps[..i])
  {
    if i > 0 {
      var s, step := run[i - 1], steps[i - 1];
      RunDelivers(run, steps, i - 1);
      RunInv(run, steps, i - 1);
      assert run[i - 1 + 1] == Next(s, step);
      assert steps[..i][..i - 1] == steps[..i - 1];
      StepDelivers(s, step);
    }
  }

  lemma StepDelivers(s: State, step: Step)
    requires Enabled(s, step)
    ensures var t := Next(s, step);
            t.consumed + t.ring + t.pending == s.consumed + s.ring + s.pending + (if step.StartWrite? then step.data else [])
  {
    match step
    case ReadPass => Regrouped(s.consumed, s.ring, s.pending, Min(|s.ring|, s.want));
    case WritePass => Regrouped(s.consumed + s.ring, s.pending, [], Min(Room(s), |s.pending|));
    case _ =>
  }

  /** Moving the first `k` elements of `b` over to `a` leaves the whole as it is. */
  lemma Regrouped(a: seq<Byte>, b: seq<Byte>, c: seq<Byte>, k: nat)
    requires k <= |b|
    ensures a + b[..k] + b[k..] + c == a + b + c && a + b + [] == a + b
  {
    assert b == b[..k] + b[k..];
  }

  /** Bytes moved into or out of the ring so far. */
  function Moved(s: State): nat { |s.written| + |s.consumed| }

  /** No livelock: of any two successive passes at least one moves a byte. */
  lemma TwoPassesMove(s: State, first: Step, second: Step)
    requires Inv(s) && first in {ReadPass, WritePass} && second in {ReadPass, WritePass}
    requires Enabled(s, first) && Enabled(Next(s, first), second)
    ensures Moved(Next(Next(s, first), second)) > Moved(s)
  {
    NextKeepsInv(s, first);
  }

  /** No deadlock: with both requests open, some process can take a pass. */
  lemma SomePassEnabled(s: State)
    requires Inv(s) && s.reading && s.pending != []
    ensures Enabled(s, ReadPass) || Enabled(s, WritePass)
  {
  }

  /** A read pass stops only with the request met or the ring empty, and the bytes it hands over are the
      oldest of the ring; the call ends exactly when there was a byte to hand over. */
  lemma ReadTakesAll(s: State)
    requires Fifo(s) && Enabled(s, ReadPass)
    ensures var t := Next(s, ReadPass);
            && s.consumed <= t.consumed && t.consumed + t.ring == s.consumed + s.ring
            && |t.consumed| <= |s.consumed| + s.want && (|t.consumed| < |s.consumed| + s.want ==> t.ring == [])
            && (t.reading <==> t.consumed == s.consumed) && !t.writerWaiting
            && t.written == s.written && t.pending == s.pending
  {
    var k := Min(|s.ring|, s.want);
    assert s.ring == s.ring[..k] + s.ring[k..];
  }

  /** A write pass stops only with every byte placed or the ring full, and the bytes go in in order
      behind those there; the call ends exactly when every byte is placed. */
  lemma WriteFillsRing(s: State)
    requires Fifo(s) && Enabled(s, WritePass)
    ensures var t := Next(s, WritePass);
            && s.ring <= t.ring && t.ring + t.pending == s.ring + s.pending
            && |t.ring| < s.size && (t.pending != [] ==> |t.ring| == s.size - 1)
            && (t.writerWaiting <==> t.pending != []) && !t.readerWaiting
            && t.consumed == s.consumed && t.written + t.pending == s.written + s.pending
  {
    var k := Min(Room(s), |s.pending|);
    assert s.pending == s.pending[..k] + s.pending[k..];
  }

  /** A read pass puts the reader to sleep only on an empty ring exactly when it asks for a byte or
      there is none: a zero-byte read of a non-empty pipe sleeps with data waiting. */
  lemma ZeroReadSleeps(s: State)
    requires Fifo(s) && Enabled(s, ReadPass)
    ensures var t := Next(s, ReadPass);
            (t.readerWaiting ==> t.ring == []) <==> (s.want > 0 || s.ring == [])
  {
  }

  /** A write pass on an empty ring moves a byte if and only if the ring has at least two bytes: a
      one-byte ring is empty and full at once, and its writer sleeps for ever. */
  lemma OneByteRingBlocks(s: State)
    requires Fifo(s) && s.ring == [] && Enabled(s, WritePass)
    ensures |Next(s, WritePass).written| > |s.written| <==> s.size >= 2
    ensures s.size == 1 ==> Next(s, WritePass) == s.(readerWaiting := false, writerWaiting := true)
  {
    assert s.size == 1 ==> s.pending[..0] == [] && s.pending[0..] == s.pending && s.written + [] == s.written;
  }

  /** The ring buffer holds what the protocol state says. */
  ghost predicate Represents(ring: Ring, s: State)
    reads ring, ring.buffer
  {
    && ring.Valid() && s.size == ring.buffer.Length
    && s.ring == ring.Contents() && s.consumed == ring.consumed && s.written == ring.written
  }

  /** The passes over the ring buffer are the passes of the protocol. */
  method ReadStep(ring: Ring, s: State, out: array<Byte>) returns (t: State)
    requires Represents(ring, s) && Enabled(s, ReadPass) && out != ring.buffer && s.want <= out.Length
    modifies ring`readPtr, ring`consumed, out
    ensures t == Next(s, ReadPass) && Represents(ring, t)
    ensures var k := Min(|s.ring|, s.want); out[..k] == s.ring[..k]
  {
    var collected := ring.ReadPass(s.want, out);
    t := Next(s, ReadPass);
  }

  /** The first pass of a write has `done == 0`; one that slept resumes where it stopped. */
  method WriteStep(ring: Ring, s: State, data: array<Byte>, done: nat) returns (t: State, w: nat)
    requires Represents(ring, s) && Enabled(s, WritePass) && data != ring.buffer
    requires done <= data.Length && data[done..] == s.pending
    modifies ring`writePtr, ring`written, ring.buffer
    ensures t == Next(s, WritePass) && Represents(ring, t)
    ensures done <= w <= data.Length && data[w..] == t.pending && data[done..w] == t.written[|s.written|..]
  {
    w := ring.WritePass(data, data.Length, done);
    t := Next(s, WritePass);
    assert data[done..w] == s.pending[..w - done];
  }

  /** A zero-byte read of a pipe holding one byte goes to sleep. */
  lemma ZeroReadExample()
    ensures var s := State(4, [7], [7], [], true, 0, [], false, false);
            Fifo(s) && Enabled(s, ReadPass) && Next(s, ReadPass).readerWaiting && Next(s, ReadPass).ring == [7]
  {
  }
}

/** How the set of taken frames and their contents change while pages are cloned. */
module FrameGrowth {
  import opened PageTables
  import opened Seqs

  /** Exactly the frames `fs`, all of them free before, have been taken. */
  ghost predicate Grown(taken: set<nat>, taken': set<nat>, fs: seq<nat>) {
    NoDup(fs) && Elems(fs) !! taken && taken' == taken + Elems(fs)
  }

  lemma GrownThen(a: set<nat>, b: set<nat>, c: set<nat>, fs: seq<nat>, gs: seq<nat>)
    requires Grown(a, b, fs) && Grown(b, c, gs)
    ensures Grown(a, c, fs + gs)
  {
    NoDupConcat(fs, gs);
    ElemsConcat(fs, gs);
  }

  lemma GrownSize(taken: set<nat>, taken': set<nat>, fs: seq<nat>)
    requires Grown(taken, taken', fs)
    ensures |taken'| == |taken| + |fs|
  {
    ElemsSize(fs);
  }

  /** The contents of taken frames have not changed. */
  ghost predicate Kept(taken: set<nat>, before: seq<Bytes>, after: seq<Bytes>) {
    |before| == |after| && forall f <- taken :: f < |before| ==> after[f] == before[f]
  }

  /** Every mapped frame of a table is taken and has contents. */
  ghost predicate MappedIn(t: Table, taken: set<nat>, n: nat) {
    forall i :: 0 <= i < |t| && t[i].addr != 0 ==> t[i].addr in taken && t[i].addr < n
  }

  lemma EmptyStart(t: Table, from: Table, taken: set<nat>, content: seq<Bytes>)
    ensures FramesOf(t[..0]) == [] == FramesOf(from[..0]) && Grown(taken, taken, FramesOf(t[..0])) && Kept(taken, content, content)
  {
  }

  /** A frame taken at the start is still taken, with its first contents. */
  lemma GrownFrame(taken: set<nat>, taken': set<nat>, fs: seq<nat>, before: seq<Bytes>, after: seq<Bytes>, f: nat)
    requires Grown(taken, taken', fs) && Kept(taken, before, after) && f in taken && f < |before|
    ensures f in taken' && f < |after| && after[f] == before[f]
  {
  }

  lemma EntryThrough(src: Page, copy: Page, first: seq<Bytes>, before: seq<Bytes>, after: seq<Bytes>)
    requires EntryCopy(src, copy, before, after) && |first| == |before|
    requires src.addr < |before| && first[src.addr] == before[src.addr]
    ensures EntryCopy(src, copy, first, after)
  {
  }

  lemma UnmappedCopy(src: Page, before: seq<Bytes>, after: seq<Bytes>)
    requires src.addr == 0
    ensures EntryCopy(src, UNMAPPED, before, after)
  {
  }

  lemma StepKept(t0: set<nat>, t1: set<nat>, t2: set<nat>, fs: seq<nat>, gs: seq<nat>, c0: seq<Bytes>, c1: seq<Bytes>, c2: seq<Bytes>)
    requires Grown(t0, t1, fs) && Grown(t1, t2, gs) && Kept(t0, c0, c1) && Kept(t1, c1, c2)
    ensures Grown(t0, t2, fs + gs) && Kept(t0, c0, c2) && t1 <= t2 && forall g <- gs :: g in t2
  {
    GrownThen(t0, t1, t2, fs, gs);
  }

  lemma EntriesKept(from: Table, t: Table, n: nat, taken: set<nat>, c0: seq<Bytes>, c1: seq<Bytes>, c2: seq<Bytes>)
    requires n <= |from| <= |t| && MappedIn(t, taken, |c1|) && Kept(taken, c1, c2)
    requires forall k :: 0 <= k < n ==> EntryCopy(from[k], t[k], c0, c1)
    ensures forall k :: 0 <= k < n ==> EntryCopy(from[k], t[k], c0, c2)
  {
  }

  lemma {:induction false} FramesOfTaken(t: Table, taken: set<nat>, n: nat)
    requires MappedIn(t, taken, n)
    ensures forall f <- FramesOf(t) :: f in taken && f < n && f != 0
  {
    forall f | f in FramesOf(t)
      ensures f in taken && f < n && f != 0
    {
      var j := FramesOfIndex(t, f);
    }
  }
}

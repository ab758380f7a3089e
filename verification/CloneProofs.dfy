/** The loop of `page_dir_clone`, on snapshots of the machine's paging state: what holds of the
    first entries of the two directories after that many turns. */
module CloneProofs {
  import opened PageTables
  import opened Seqs
  import opened FrameGrowth

  /** Taken frames and their count, tables, the next fresh pointer and the frame contents. */
  datatype Memory = Memory(taken: set<nat>, used: int, tables: map<nat, Table>, next: nat, content: seq<Bytes>)

  ghost predicate Sound(m: Memory) {
    && (forall p <- m.tables :: 0 < p < m.next)
    && (forall p <- m.tables :: MappedIn(m.tables[p], m.taken, |m.content|))
  }

  /** One directory entry of the clone: absent, the kernel's own table, or a fresh copy. */
  ghost predicate DirEntryCopy(s: nat, kernel: nat, copy: nat, m0: Memory, m: Memory) {
    if s == 0 then copy == 0
    else if s == kernel then copy == s
    else && copy != 0 && copy != kernel && copy !in m0.tables && copy in m.tables && s in m0.tables
         && TableCopy(m0.tables[s], m.tables[copy], m0.content, m.content)
  }

  /** The tables of the clone are new, distinct and all that was added. */
  ghost predicate NewTables(m0: Memory, m: Memory, ts: seq<nat>) {
    && NoDup(ts) && m0.next <= m.next && (forall p <- ts :: m0.next <= p < m.next)
    && (forall p <- m0.tables :: p in m.tables && m.tables[p] == m0.tables[p])
    && m.tables.Keys == m0.tables.Keys + Elems(ts)
  }

  /** The frames of the new tables are new, distinct and all that was taken. */
  ghost predicate NewFrames(m0: Memory, m: Memory, ts: seq<nat>)
    requires forall p <- ts :: p in m.tables
  {
    && Grown(m0.taken, m.taken, AllFrames(ts, m.tables))
    && m.used == m0.used + |AllFrames(ts, m.tables)|
    && Kept(m0.taken, m0.content, m.content)
  }

  ghost predicate Cloned(m0: Memory, m: Memory, src: Directory, kernel: Directory, copy: Directory) {
    && |src| == |copy| <= |kernel|
    && NewTables(m0, m, OwnTables(copy, kernel))
    && NewFrames(m0, m, OwnTables(copy, kernel))
    && (forall p <- OwnTables(src, kernel) :: p in m0.tables)
    && |AllFrames(OwnTables(copy, kernel), m.tables)| == |AllFrames(OwnTables(src, kernel), m0.tables)|
    && forall k :: 0 <= k < |src| ==> DirEntryCopy(src[k], kernel[k], copy[k], m0, m)
  }

  lemma NewTablesIn(m0: Memory, m: Memory, ts: seq<nat>)
    requires NewTables(m0, m, ts)
    ensures forall p <- ts :: p in m.tables
  {
    assert forall p <- ts :: p in Elems(ts);
  }

  lemma CloneStart(m: Memory, kernel: Directory)
    ensures Cloned(m, m, [], kernel, [])
  {
    assert Elems([]) == {};
  }

  lemma {:induction false} OwnSnoc(d: Directory, kernel: Directory, p: nat)
    requires |d| < |kernel|
    ensures OwnTables(d + [p], kernel) == OwnTables(d, kernel) + (if p != 0 && p != kernel[|d|] then [p] else [])
  {
    var e := d + [p];
    assert e[..|e| - 1] == d && e[|e| - 1] == p;
  }

  /** An absent entry or a kernel table costs nothing. */
  lemma ShareStep(m0: Memory, m: Memory, src: Directory, kernel: Directory, copy: Directory, s: nat)
    requires Cloned(m0, m, src, kernel, copy) && |src| < |kernel| && (s == 0 || s == kernel[|src|])
    ensures Cloned(m0, m, src + [s], kernel, copy + [s])
  {
    hide NewTables, NewFrames, TableCopy, FramesOf, AllFrames, OwnTables;
    NewTablesIn(m0, m, OwnTables(copy, kernel));
    OwnSnoc(src, kernel, s);
    OwnSnoc(copy, kernel, s);
    assert OwnTables(src, kernel) + [] == OwnTables(src, kernel);
    assert OwnTables(copy, kernel) + [] == OwnTables(copy, kernel);
  }

  /** What one `table_clone` of table `s` did. */
  ghost predicate TableCloned(m: Memory, m': Memory, s: nat, t: nat) {
    && s in m.tables && t in m'.tables
    && t == m.next && t !in m.tables && m'.next == t + 1 && m'.tables == m.tables[t := m'.tables[t]]
    && TableCopy(m.tables[s], m'.tables[t], m.content, m'.content)
    && Grown(m.taken, m'.taken, FramesOf(m'.tables[t]))
    && m'.used == m.used + |FramesOf(m'.tables[t])| && |FramesOf(m'.tables[t])| == |FramesOf(m.tables[s])|
    && Kept(m.taken, m.content, m'.content)
  }

  lemma NewTablesStep(m0: Memory, m: Memory, m': Memory, ts: seq<nat>, s: nat, t: nat)
    requires NewTables(m0, m, ts) && TableCloned(m, m', s, t)
    ensures NewTables(m0, m', ts + [t])
  {
    hide TableCopy, Grown, Kept, FramesOf;
    ElemsConcat(ts, [t]);
    assert Elems([t]) == {t};
  }

  lemma NewFramesStep(m0: Memory, m: Memory, m': Memory, ts: seq<nat>, s: nat, t: nat)
    requires NewTables(m0, m, ts) && TableCloned(m, m', s, t)
    requires (forall p <- ts :: p in m.tables) && NewFrames(m0, m, ts)
    ensures forall p <- ts + [t] :: p in m'.tables
    ensures NewFrames(m0, m', ts + [t])
    ensures AllFrames(ts + [t], m'.tables) == AllFrames(ts, m.tables) + FramesOf(m'.tables[t])
  {
    hide TableCopy, FramesOf, AllFrames, NewTables;
    AllFramesSame(ts, m.tables, m'.tables);
    AllFramesSnoc(ts, t, m'.tables);
    StepKept(m0.taken, m.taken, m'.taken, AllFrames(ts, m.tables), FramesOf(m'.tables[t]), m0.content, m.content, m'.content);
  }

  /** A copy already made stays one: its frames are taken, and taken frames keep their contents. */
  lemma TableCopyKept(src: Table, copy: Table, taken: set<nat>, c0: seq<Bytes>, c1: seq<Bytes>, c2: seq<Bytes>)
    requires TableCopy(src, copy, c0, c1) && MappedIn(copy, taken, |c1|) && Kept(taken, c1, c2)
    ensures TableCopy(src, copy, c0, c2)
  {
    EntriesKept(src, copy, |src|, taken, c0, c1, c2);
  }

  /** The source's pages still have the contents they had at the start. */
  lemma TableCopyThrough(src: Table, copy: Table, taken: set<nat>, c0: seq<Bytes>, c1: seq<Bytes>, c2: seq<Bytes>)
    requires TableCopy(src, copy, c1, c2) && MappedIn(src, taken, |c0|) && Kept(taken, c0, c1)
    ensures TableCopy(src, copy, c0, c2)
  {
    forall i | 0 <= i < |src|
      ensures EntryCopy(src[i], copy[i], c0, c2)
    {
      assert EntryCopy(src[i], copy[i], c1, c2);
    }
  }

  lemma EntryStep(m0: Memory, m: Memory, m': Memory, ts: seq<nat>, s: nat, kernel: nat, t: nat)
    requires Sound(m0) && NewTables(m0, m, ts) && TableCloned(m, m', s, t)
    requires Kept(m0.taken, m0.content, m.content)
    requires s in m0.tables && s != kernel && (kernel == 0 || kernel in m0.tables)
    ensures DirEntryCopy(s, kernel, t, m0, m')
  {
    hide Grown, FramesOf, TableCopy, MappedIn, Kept;
    assert MappedIn(m0.tables[s], m0.taken, |m0.content|);
    TableCopyThrough(m0.tables[s], m'.tables[t], m0.taken, m0.content, m.content, m'.content);
  }

  lemma EarlierEntry(m0: Memory, m: Memory, m': Memory, s: nat, kernel: nat, copy: nat, s': nat, t: nat)
    requires Sound(m) && TableCloned(m, m', s', t) && DirEntryCopy(s, kernel, copy, m0, m)
    ensures DirEntryCopy(s, kernel, copy, m0, m')
  {
    hide Grown, FramesOf, TableCopy, MappedIn, Kept;
    if s != 0 && s != kernel {
      assert MappedIn(m.tables[copy], m.taken, |m.content|);
      TableCopyKept(m0.tables[s], m.tables[copy], m.taken, m0.content, m.content, m'.content);
    }
  }

  /** A private table is cloned into a private table. */
  lemma CloneStep(m0: Memory, m: Memory, m': Memory, src: Directory, kernel: Directory, copy: Directory, s: nat, t: nat)
    requires Sound(m0) && Sound(m) && Cloned(m0, m, src, kernel, copy) && |src| < |kernel|
    requires s in m0.tables && s != kernel[|src|] && (kernel[|src|] == 0 || kernel[|src|] in m0.tables)
    requires TableCloned(m, m', s, t)
    ensures Cloned(m0, m', src + [s], kernel, copy + [t])
  {
    hide TableCopy, Grown, Kept, FramesOf, MappedIn, OwnTables, AllFrames;
    var ts, ss := OwnTables(copy, kernel), OwnTables(src, kernel);
    EntryStep(m0, m, m', ts, s, kernel[|src|], t);
    OwnSnoc(src, kernel, s);
    OwnSnoc(copy, kernel, t);
    NewTablesStep(m0, m, m', ts, s, t);
    NewFramesStep(m0, m, m', ts, s, t);
    AllFramesSnoc(ss, s, m0.tables);
    forall k | 0 <= k < |src|
      ensures DirEntryCopy(src[k], kernel[k], copy[k], m0, m')
    {
      EarlierEntry(m0, m, m', src[k], kernel[k], copy[k], s, t);
    }
  }
}

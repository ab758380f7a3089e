/** What a fork means to the two processes: they read the same memory, and a store through one's
    private pages is not seen through any other directory. */
module ForkView {
  import opened PageTables
  import opened Seqs
  import opened FrameGrowth
  import opened CloneProofs

  datatype Option<T> = None | Some(value: T)

  /** The entry a directory has for table `i`, page `j`; `get_page` without `make`. */
  function Entry(d: Directory, tables: map<nat, Table>, i: nat, j: nat): Page {
    if i < |d| && d[i] in tables && j < |tables[d[i]]| then tables[d[i]][j] else UNMAPPED
  }

  /** The bytes a process sees at a virtual page. */
  function Read(d: Directory, tables: map<nat, Table>, content: seq<Bytes>, i: nat, j: nat): Option<Bytes> {
    var p := Entry(d, tables, i, j);
    if p.addr == 0 || p.addr >= |content| then None else Some(content[p.addr])
  }

  /** A directory whose entries are null or tables of the machine. */
  ghost predicate WellFormed(d: Directory, tables: map<nat, Table>) {
    forall i :: 0 <= i < |d| && d[i] != 0 ==> d[i] in tables
  }

  lemma EntryInTaken(m: Memory, d: Directory, i: nat, j: nat)
    requires Sound(m)
    ensures var p := Entry(d, m.tables, i, j); p.addr != 0 ==> p.addr in m.taken && p.addr < |m.content|
  {
    if i < |d| && d[i] in m.tables {
      assert MappedIn(m.tables[d[i]], m.taken, |m.content|);
    }
  }

  /** Cloning changes nothing a directory that existed before reads. */
  lemma OthersUnchanged(m0: Memory, m: Memory, src: Directory, kernel: Directory, copy: Directory, other: Directory, i: nat, j: nat)
    requires Sound(m0) && Sound(m) && Cloned(m0, m, src, kernel, copy) && WellFormed(other, m0.tables)
    ensures Entry(other, m.tables, i, j) == Entry(other, m0.tables, i, j)
    ensures Read(other, m.tables, m.content, i, j) == Read(other, m0.tables, m0.content, i, j)
  {
    hide OwnTables, AllFrames, FramesOf, TableCopy, Grown, DirEntryCopy;
    EntryInTaken(m0, other, i, j);
    if i < |other| && other[i] != 0 {
      assert m.tables[other[i]] == m0.tables[other[i]];
    } else if i < |other| {
      assert 0 !in m0.tables && 0 !in m.tables;
    }
  }

  /** The child reads at every virtual page what the parent reads, with the parent's write permission. */
  lemma ChildSeesParent(m0: Memory, m: Memory, src: Directory, kernel: Directory, copy: Directory, i: nat, j: nat)
    requires Sound(m0) && Sound(m) && Cloned(m0, m, src, kernel, copy) && i < |src|
    requires WellFormed(src, m0.tables)
    ensures Read(copy, m.tables, m.content, i, j) == Read(src, m0.tables, m0.content, i, j)
    ensures Entry(copy, m.tables, i, j).rw == Entry(src, m0.tables, i, j).rw
         || Entry(src, m0.tables, i, j).addr == 0
  {
    assert DirEntryCopy(src[i], kernel[i], copy[i], m0, m);
    if src[i] == 0 || src[i] == kernel[i] {
      OthersUnchanged(m0, m, src, kernel, copy, src, i, j);
      assert copy[i] == src[i];
      assert src[i] != 0 ==> m.tables[src[i]] == m0.tables[src[i]];
    } else if j < |m0.tables[src[i]]| {
      assert EntryCopy(m0.tables[src[i]][j], m.tables[copy[i]][j], m0.content, m.content);
    }
  }

  /** A page of the child's own has a frame no earlier directory maps, so storing through it changes
      nothing they read. */
  lemma StoresArePrivate(m0: Memory, m: Memory, src: Directory, kernel: Directory, copy: Directory, i: nat, j: nat,
                         other: Directory, i': nat, j': nat, bytes: Bytes)
    requires Sound(m0) && Sound(m) && Cloned(m0, m, src, kernel, copy) && |src| == |kernel|
    requires WellFormed(other, m0.tables)
    requires i < |copy| && copy[i] != 0 && copy[i] != kernel[i] && Entry(copy, m.tables, i, j).addr != 0
    ensures var f := Entry(copy, m.tables, i, j).addr;
            && f < |m.content|
            && Read(other, m.tables, m.content[f := bytes], i', j') == Read(other, m.tables, m.content, i', j')
  {
    hide TableCopy, DirEntryCopy, AllFrames, FramesOf;
    var f := Entry(copy, m.tables, i, j).addr;
    EntryInTaken(m, copy, i, j);
    OwnFrameIsNew(m0, m, src, kernel, copy, i, j);
    EntryInTaken(m0, other, i', j');
    if i' < |other| && other[i'] != 0 {
      assert m.tables[other[i']] == m0.tables[other[i']];
    }
  }

  /** The frame of a page of the clone's own was free before. */
  lemma OwnFrameIsNew(m0: Memory, m: Memory, src: Directory, kernel: Directory, copy: Directory, i: nat, j: nat)
    requires Sound(m) && Cloned(m0, m, src, kernel, copy) && |src| == |kernel|
    requires i < |copy| && copy[i] != 0 && copy[i] != kernel[i] && Entry(copy, m.tables, i, j).addr != 0
    ensures Entry(copy, m.tables, i, j).addr !in m0.taken
  {
    hide TableCopy, DirEntryCopy, AllFrames, FramesOf, Kept;
    var ts, p := OwnTables(copy, kernel), copy[i];
    OwnMember(copy, kernel, i);
    var k :| 0 <= k < |ts| && ts[k] == p;
    FramesOfMember(m.tables[p], j);
    FramesSubset(ts, k, m.tables);
    assert FramesAt(p, m.tables) == FramesOf(m.tables[p]);
    assert m.tables[p][j].addr in AllFrames(ts, m.tables);
    assert m.tables[p][j].addr in Elems(AllFrames(ts, m.tables));
  }
}

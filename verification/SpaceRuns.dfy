/** What holds in every run of forks, page mappings, stores and reaps. */
module SpaceRuns {
  import opened Seqs
  import opened PageTables
  import opened FrameGrowth
  import opened CloneProofs
  import opened ForkView
  import opened Spaces
  import opened SpaceProofs

  // ---- The invariant over runs ----

  lemma StepKeepsInv(s: State, c: Call, t: State)
    requires Inv(s) && Steps(s, c, t)
    ensures Inv(t)
  {
    hide Inv, ClonedTo, Made, Filled, Unmapped, Released;
    match c
    case Clone(src) => CloneKeepsInv(s, src, t);
    case Map(d, i, j, kernelMode, rw) => MapKeepsInv(s, c, t);
    case Unmap(d, i, j) => UnmappedKeepsInv(s, s.dirs[d][i], j);
    case Store(d, i, j, bytes) => StoreKeepsInv(s, s.mem.tables[s.dirs[d][i]][j].addr, bytes);
    case Release(d) => ReleaseKeepsInv(s, d);
  }

  lemma MapKeepsInv(s: State, c: Call, t: State)
    requires Inv(s) && c.Map? && MappedTo(s, c, t)
    ensures Inv(t)
  {
    hide Inv, Filled;
    MadeKeepsInv(s, c.d, c.i);
    var m := Made(s, c.d, c.i);
    if t != m {
      var f := Entry(t.dirs[c.d], t.mem.tables, c.i, c.j).addr;
      FilledKeepsInv(m, m.dirs[c.d][c.i], c.j, Page(true, c.rw, !c.kernelMode, false, false, f));
    }
  }

  lemma StoreKeepsInv(s: State, f: nat, bytes: Bytes)
    requires Inv(s) && f < |s.mem.content|
    ensures Inv(s.(mem := s.mem.(content := s.mem.content[f := bytes])))
  {
    hide OneOwner, OneFrame, Reached, MappedIn;
  }

  lemma StartInv(taken: set<nat>, used: int, content: seq<Bytes>)
    requires 0 in taken
    ensures Inv(Start(taken, used, content))
  {
  }

  lemma {:induction false} RunInv(run: seq<State>, calls: seq<Call>, i: nat)
    requires IsRun(run, calls) && i < |run| && 0 in run[0].mem.taken
    requires run[0] == Start(run[0].mem.taken, run[0].mem.used, run[0].mem.content)
    ensures Inv(run[i])
  {
    hide Inv, Steps, Start;
    if i == 0 {
      StartInv(run[0].mem.taken, run[0].mem.used, run[0].mem.content);
    } else {
      RunInv(run, calls, i - 1);
      StepKeepsInv(run[i - 1], calls[i - 1], run[i - 1 + 1]);
    }
  }

  // ---- Sharing ----

  /** Two address spaces map one frame only at the same page of the same kernel table. */
  lemma SharedOnlyKernel(s: State, d: nat, e: nat, i: nat, j: nat, k: nat, l: nat)
    requires Inv(s) && d in s.dirs && e in s.dirs
    requires Entry(s.dirs[d], s.mem.tables, i, j).addr == Entry(s.dirs[e], s.mem.tables, k, l).addr != 0
    ensures i == k && j == l && i < ENTRIES && (d == e || s.dirs[d][i] == KernelDir(s)[i])
  {
    hide Sound, FramesOf, Reached;
    var p, q, f := s.dirs[d][i], s.dirs[e][k], Entry(s.dirs[d], s.mem.tables, i, j).addr;
    FramesOfMember(s.mem.tables[p], j);
    FramesOfMember(s.mem.tables[q], l);
    assert f in Elems(FramesOf(s.mem.tables[p])) && f in Elems(FramesOf(s.mem.tables[q]));
    if j != l && p == q {
      EntriesDiffer(s.mem.tables[p], j, l);
    }
    assert p == q && p != 0 by { NullTable(s.mem); }
    if d == e {
      assert NoRepeat(s.dirs[d]);
    } else {
      assert Apart(s.dirs[d], s.dirs[e], KernelDir(s));
    }
  }

  /** Without repetition in a table's frames, two of its entries map different frames. */
  lemma {:induction false} EntriesDiffer(t: Table, j: nat, l: nat)
    requires NoDup(FramesOf(t)) && j < |t| && l < |t| && j != l && t[j].addr != 0
    ensures t[j].addr != t[l].addr
  {
    if t[l].addr != 0 {
      var page := t[j].(addr := 0);
      FramesOfClear(t, j, page);
      FramesOfMember(t[j := page], l);
      assert t[l].addr in Elems(FramesOf(t[j := page]));
    }
  }

  /** A store through a page that is not the kernel's is seen by no other address space. */
  lemma StoreIsPrivate(s: State, c: Call, t: State, e: nat, k: nat, l: nat)
    requires Inv(s) && c.Store? && Steps(s, c, t) && e in s.dirs
    requires e != c.d && s.dirs[c.d][c.i] != KernelDir(s)[c.i]
    ensures Read(t.dirs[e], t.mem.tables, t.mem.content, k, l) == Read(s.dirs[e], s.mem.tables, s.mem.content, k, l)
  {
    hide Inv;
    var f := Entry(s.dirs[c.d], s.mem.tables, c.i, c.j).addr;
    if Entry(s.dirs[e], s.mem.tables, k, l).addr == f {
      SharedOnlyKernel(s, c.d, e, c.i, c.j, k, l);
    }
  }

  /** After a fork the child reads at every page what its parent read, and no other directory sees
      another entry or another byte. */
  lemma CloneReads(s: State, src: nat, t: State, e: nat, i: nat, j: nat)
    requires Inv(s) && Steps(s, Clone(src), t) && e in s.dirs
    ensures var d := s.mem.next;
            && d in t.dirs && e in t.dirs && d != e
            && Read(t.dirs[d], t.mem.tables, t.mem.content, i, j) == Read(s.dirs[src], s.mem.tables, s.mem.content, i, j)
            && Entry(t.dirs[e], t.mem.tables, i, j) == Entry(s.dirs[e], s.mem.tables, i, j)
            && Read(t.dirs[e], t.mem.tables, t.mem.content, i, j) == Read(s.dirs[e], s.mem.tables, s.mem.content, i, j)
  {
    hide OneOwner, OneFrame, Reached, Cloned, Sound, WellFormed, Entry;
    var m0, d, kernel := s.mem.(next := s.mem.next + 1), s.mem.next, KernelDir(s);
    CloneKeepsInv(s, src, t);
    SoundLater(s.mem);
    CloneLength(m0, t.mem, s.dirs[src], kernel, t.dirs[d]);
    OthersUnchanged(m0, t.mem, s.dirs[src], kernel, t.dirs[d], s.dirs[e], i, j);
    if i < ENTRIES {
      ChildSeesParent(m0, t.mem, s.dirs[src], kernel, t.dirs[d], i, j);
    } else {
      NoEntry(t.dirs[d], t.mem.tables, i, j);
      NoEntry(s.dirs[src], s.mem.tables, i, j);
    }
  }

  /** Slot `i` of child `d` of `src`: the kernel's tables are shared and no others, and a table that is
      not the kernel's gets one no directory had. */
  ghost predicate ChildSlot(s: State, src: nat, t: State, d: nat, i: nat) {
    && src in s.dirs && d in t.dirs && i < |s.dirs[src]| && i < |t.dirs[d]| && i < |KernelDir(s)|
    && var p, q := s.dirs[src][i], t.dirs[d][i];
    && (q == p <==> p == 0 || p == KernelDir(s)[i])
    && (q != p ==> q != 0 && q !in s.mem.tables && q in t.mem.tables)
  }

  /** Page `j` of slot `i` of child `d` of `src`: unmapped where the parent's is; under a kernel table the
      same entry; elsewhere a frame that was free, holding the bytes of the parent's, with its flags,
      present and open to the user. */
  ghost predicate ChildPage(s: State, src: nat, t: State, d: nat, i: nat, j: nat) {
    && src in s.dirs && d in t.dirs && i < |s.dirs[src]| && i < |KernelDir(s)|
    && var p, q := Entry(s.dirs[src], s.mem.tables, i, j), Entry(t.dirs[d], t.mem.tables, i, j);
    if s.dirs[src][i] == KernelDir(s)[i] then q == p
    else if p.addr == 0 then q == UNMAPPED
    else
      && q == Page(true, p.rw, true, p.accessed, p.dirty, q.addr)
      && q.addr != 0 && q.addr !in s.mem.taken && q.addr in t.mem.taken
      && p.addr < |s.mem.content| && q.addr < |t.mem.content| && t.mem.content[q.addr] == s.mem.content[p.addr]
  }

  /** A fork shares exactly the kernel's tables and copies every other mapped page into a frame that was free. */
  lemma CloneShares(s: State, src: nat, t: State, i: nat, j: nat)
    requires Inv(s) && Steps(s, Clone(src), t) && i < ENTRIES
    ensures var d := s.mem.next;
            ChildSlot(s, src, t, d, i) && ChildPage(s, src, t, d, i, j)
  {
    hide OneOwner, OneFrame, Reached, Cloned, Sound, WellFormed, Entry;
    var m0, d, kernel := s.mem.(next := s.mem.next + 1), s.mem.next, KernelDir(s);
    CloneKeepsInv(s, src, t);
    SoundLater(s.mem);
    CloneLength(m0, t.mem, s.dirs[src], kernel, t.dirs[d]);
    CopiedSlot(m0, t.mem, s.dirs[src], kernel, t.dirs[d], i, j);
  }

  /** Directory `d` is a forked copy of `src`, in every slot and at every page. */
  ghost predicate ChildOf(s: State, src: nat, t: State, d: nat) {
    && (forall i: nat :: i < ENTRIES ==> ChildSlot(s, src, t, d, i))
    && (forall i: nat, j: nat :: i < ENTRIES ==> ChildPage(s, src, t, d, i, j))
  }

  lemma CloneIsChild(s: State, src: nat, t: State)
    requires Inv(s) && Steps(s, Clone(src), t)
    ensures ChildOf(s, src, t, s.mem.next)
  {
    hide Inv, Steps, ChildSlot, ChildPage;
    forall i: nat, j: nat | i < ENTRIES
      ensures ChildSlot(s, src, t, s.mem.next, i) && ChildPage(s, src, t, s.mem.next, i, j)
    {
      CloneShares(s, src, t, i, j);
    }
    forall i: nat | i < ENTRIES
      ensures ChildSlot(s, src, t, s.mem.next, i)
    {
      CloneShares(s, src, t, i, 0);
    }
  }

  lemma CopiedSlot(m0: Memory, m: Memory, src: Directory, kernel: Directory, copy: Directory, i: nat, j: nat)
    requires Sound(m0) && Sound(m) && Cloned(m0, m, src, kernel, copy) && |src| == |kernel| && i < |src|
    requires WellFormed(src, m0.tables)
    ensures i < |copy| && (copy[i] == src[i] <==> src[i] == 0 || src[i] == kernel[i])
    ensures copy[i] != src[i] ==> copy[i] != 0 && copy[i] !in m0.tables && copy[i] in m.tables
    ensures var p, q := Entry(src, m0.tables, i, j), Entry(copy, m.tables, i, j);
            if src[i] == kernel[i] then q == p
            else if p.addr == 0 then q == UNMAPPED
            else && q == Page(true, p.rw, true, p.accessed, p.dirty, q.addr)
                 && q.addr != 0 && q.addr !in m0.taken && q.addr in m.taken
                 && p.addr < |m0.content| && q.addr < |m.content| && m.content[q.addr] == m0.content[p.addr]
  {
    hide OwnTables, AllFrames, FramesOf, Grown, Kept, NewFrames;
    assert DirEntryCopy(src[i], kernel[i], copy[i], m0, m);
    if src[i] == 0 || src[i] == kernel[i] {
      OthersUnchanged(m0, m, src, kernel, copy, src, i, j);
    } else if j < |m0.tables[src[i]]| {
      assert EntryCopy(m0.tables[src[i]][j], m.tables[copy[i]][j], m0.content, m.content);
      if m0.tables[src[i]][j].addr != 0 {
        OwnFrameIsNew(m0, m, src, kernel, copy, i, j);
        EntryInTaken(m, copy, i, j);
      }
    }
  }

  lemma NoEntry(d: Directory, tables: map<nat, Table>, i: nat, j: nat)
    requires |d| <= i
    ensures Entry(d, tables, i, j) == UNMAPPED
  {
  }

  // ---- Mapping ----

  /** Mapping a page changes its entry only if it was unmapped, and then takes one frame that was free. */
  lemma MapsOnePage(s: State, c: Call, t: State)
    requires Inv(s) && c.Map? && MappedTo(s, c, t)
    ensures t.dirs.Keys == s.dirs.Keys && |t.dirs[c.d]| == ENTRIES && t.dirs[c.d][c.i] != 0
    ensures var p, q := Entry(s.dirs[c.d], s.mem.tables, c.i, c.j), Entry(t.dirs[c.d], t.mem.tables, c.i, c.j);
            if p.addr != 0 then q == p && t.mem.taken == s.mem.taken && t.mem.used == s.mem.used
            else q == Page(true, c.rw, !c.kernelMode, false, false, q.addr) && q.addr !in s.mem.taken
                 && t.mem.taken == s.mem.taken + {q.addr} && t.mem.used == s.mem.used + 1
  {
    hide OneOwner, OneFrame, Reached, MappedIn;
  }

  /** No other entry changes; where the table is the kernel's, the page itself is one entry everywhere. */
  lemma MapsNothingElse(s: State, c: Call, t: State, e: nat, k: nat, l: nat)
    requires Inv(s) && c.Map? && MappedTo(s, c, t) && e in s.dirs && k < ENTRIES
    ensures e in t.dirs && k < |t.dirs[e]|
    ensures !(t.dirs[e][k] == t.dirs[c.d][c.i] && l == c.j) ==> Entry(t.dirs[e], t.mem.tables, k, l) == Entry(s.dirs[e], s.mem.tables, k, l)
  {
    hide OneOwner, OneFrame, Reached, MappedIn;
  }

  // ---- Release ----

  /** The frames only directory `d` maps. */
  ghost function Only(s: State, d: nat): set<nat> {
    set f | f in s.mem.taken && Maps(s, d, f) && forall e <- s.dirs :: e != d ==> !Maps(s, e, f)
  }

  lemma MapsInTable(s: State, d: nat, i: nat, j: nat)
    requires Inv(s) && d in s.dirs && Entry(s.dirs[d], s.mem.tables, i, j).addr != 0
    ensures i < ENTRIES && s.dirs[d][i] in s.mem.tables && s.dirs[d][i] != 0
    ensures Entry(s.dirs[d], s.mem.tables, i, j).addr in FramesOf(s.mem.tables[s.dirs[d][i]])
    ensures Entry(s.dirs[d], s.mem.tables, i, j).addr in s.mem.taken
  {
    hide OneOwner, OneFrame, Reached, Sound;
    NullTable(s.mem);
    FramesOfMember(s.mem.tables[s.dirs[d][i]], j);
    TableFrames(s.mem, s.dirs[d][i]);
    assert s.mem.tables[s.dirs[d][i]][j].addr in Elems(FramesOf(s.mem.tables[s.dirs[d][i]]));
  }

  /** A frame of `d`'s own tables is mapped by `d` and by no other directory. */
  lemma OwnFrameOnly(s: State, d: nat, f: nat)
    requires Inv(s) && d in s.dirs && f in OwnFrames(s, d)
    ensures f in Only(s, d)
  {
    hide Inv, AllFrames, OwnTables;
    OwnListed(s, d);
    var ts := Own(s, d);
    var k := AllFramesFrom(ts, s.mem.tables, f);
    var j := FramesOfIndex(s.mem.tables[ts[k]], f);
    var i := OwnIndex(s.dirs[d], KernelDir(s), ts[k]);
    assert Entry(s.dirs[d], s.mem.tables, i, j).addr == f;
    MapsInTable(s, d, i, j);
    forall e | e in s.dirs && e != d
      ensures !Maps(s, e, f)
    {
      if Maps(s, e, f) {
        var k: nat, l: nat :| Entry(s.dirs[e], s.mem.tables, k, l).addr == f;
        SharedOnlyKernel(s, d, e, i, j, k, l);
      }
    }
  }

  /** A frame only `d` maps is in a table of its own. */
  lemma OnlyIsOwnFrame(s: State, d: nat, f: nat)
    requires Inv(s) && d in s.dirs && d != s.kernelPd && f in Only(s, d)
    ensures f in OwnFrames(s, d)
  {
    hide Inv, AllFrames, OwnTables, FramesOf;
    OwnListed(s, d);
    var i: nat, j: nat :| Entry(s.dirs[d], s.mem.tables, i, j).addr == f;
    MapsInTable(s, d, i, j);
    var p := s.dirs[d][i];
    KernelKnown(s);
    assert !Maps(s, s.kernelPd, f);
    assert Entry(s.dirs[s.kernelPd], s.mem.tables, i, j).addr != f;
    OwnMember(s.dirs[d], KernelDir(s), i);
    var k :| 0 <= k < |Own(s, d)| && Own(s, d)[k] == p;
    FramesSubset(Own(s, d), k, s.mem.tables);
  }

  lemma KernelKnown(s: State)
    requires Inv(s)
    ensures s.kernelPd in s.dirs && KernelDir(s) == s.dirs[s.kernelPd]
  {
  }

  /** Releasing a directory gives back exactly the frames only it maps, each counted once. */
  lemma ReleaseExact(s: State, d: nat)
    requires Inv(s) && d in s.dirs && d != s.kernelPd
    ensures var t := Released(s, d);
            && t.mem.taken == s.mem.taken - Only(s, d)
            && t.mem.used == s.mem.used - |Only(s, d)| && |t.mem.taken| == |s.mem.taken| - |Only(s, d)|
  {
    hide Inv, Only, Own, AllFrames;
    var fs := OwnFrames(s, d);
    forall f
      ensures f in Elems(fs) <==> f in Only(s, d)
    {
      if f in Elems(fs) { OwnFrameOnly(s, d, f); }
      if f in Only(s, d) { OnlyIsOwnFrame(s, d, f); }
    }
    assert Elems(fs) == Only(s, d);
    OwnListed(s, d);
    InvParts(s);
    AllFramesNoDup(Own(s, d), s.mem.tables);
    ElemsSize(fs);
    ListedFramesTaken(s.mem, Own(s, d));
    assert Elems(fs) <= s.mem.taken;
  }

  lemma InvParts(s: State)
    requires Inv(s)
    ensures Sound(s.mem) && OneFrame(s.mem.tables)
  {
  }

  lemma InvSizes(s: State, d: nat)
    requires Inv(s) && d in s.dirs
    ensures s.kernelPd in s.dirs && |s.dirs[d]| == |KernelDir(s)| == ENTRIES && s.mem.next !in s.dirs && 0 in s.mem.taken
    ensures forall p <- s.mem.tables :: |s.mem.tables[p]| == ENTRIES
    ensures forall i :: 0 <= i < ENTRIES && s.dirs[d][i] != 0 ==> s.dirs[d][i] in s.mem.tables
  {
    hide OneOwner, OneFrame, Reached, Sound;
  }

  /** No entry and no byte another directory reads changes. */
  lemma ReleaseUnseen(s: State, d: nat, e: nat, i: nat, j: nat)
    requires Inv(s) && d in s.dirs && d != s.kernelPd && e in s.dirs && e != d
    ensures var t := Released(s, d);
            && e in t.dirs && Entry(t.dirs[e], t.mem.tables, i, j) == Entry(s.dirs[e], s.mem.tables, i, j)
            && Read(t.dirs[e], t.mem.tables, t.mem.content, i, j) == Read(s.dirs[e], s.mem.tables, s.mem.content, i, j)
  {
    hide Own, OneFrame, Sound, Reached, AllFrames;
    var t := Released(s, d);
    if i < |s.dirs[e]| && s.dirs[e][i] in s.mem.tables {
      assert s.dirs[e][i] !in Own(s, d) by {
        if s.dirs[e][i] in Own(s, d) { OwnIsOwn(s, d, e, s.dirs[e][i]); }
      }
      assert t.mem.tables[s.dirs[e][i]] == s.mem.tables[s.dirs[e][i]];
    }
  }

  /** In every run, whatever was forked, mapped, stored and reaped before: releasing a directory other
      than the kernel's frees exactly the frames only it maps, lowers the used count by their number,
      and changes no entry and no byte that any other directory reads. */
  lemma ReleaseInRun(run: seq<State>, calls: seq<Call>, k: nat, e: nat, i: nat, j: nat)
    requires IsRun(run, calls) && k < |calls| && calls[k].Release? && 0 in run[0].mem.taken
    requires run[0] == Start(run[0].mem.taken, run[0].mem.used, run[0].mem.content)
    ensures var s, t, d := run[k], run[k + 1], calls[k].d;
            && d in s.dirs && t.dirs == s.dirs - {d} && Inv(t)
            && t.mem.taken == s.mem.taken - Only(s, d) && t.mem.used == s.mem.used - |Only(s, d)|
            && (e in t.dirs ==>
                  && Entry(t.dirs[e], t.mem.tables, i, j) == Entry(s.dirs[e], s.mem.tables, i, j)
                  && Read(t.dirs[e], t.mem.tables, t.mem.content, i, j) == Read(s.dirs[e], s.mem.tables, s.mem.content, i, j))
  {
    hide Inv, Start, Only, Own, Entry, Read;
    RunInv(run, calls, k);
    var s, d := run[k], calls[k].d;
    assert Steps(s, calls[k], run[k + 1]);
    ReleaseKeepsInv(s, d);
    ReleaseExact(s, d);
    if e in s.dirs && e != d { ReleaseUnseen(s, d, e, i, j); }
  }

  // ---- Conservation of frames ----

  ghost predicate InTable(tables: map<nat, Table>, f: nat) { exists p :: p in tables && f in FramesOf(tables[p]) }

  /** Taken are exactly the frames taken at boot and those some table maps; the used count moves with them. */
  ghost predicate Accounted(boot: set<nat>, skew: int, m: Memory) {
    && (forall f :: f in m.taken <==> f in boot || InTable(m.tables, f))
    && (forall f <- boot :: !InTable(m.tables, f))
    && m.used - |m.taken| == skew
  }

  lemma CloneInTable(m0: Memory, m: Memory, ts: seq<nat>, f: nat)
    requires NewTables(m0, m, ts) && forall p <- ts :: p in m.tables
    ensures InTable(m.tables, f) <==> InTable(m0.tables, f) || f in AllFrames(ts, m.tables)
  {
    hide FramesOf, AllFrames;
    if f in AllFrames(ts, m.tables) {
      var k := AllFramesFrom(ts, m.tables, f);
      assert ts[k] in m.tables;
    }
    if InTable(m0.tables, f) {
      var p :| p in m0.tables && f in FramesOf(m0.tables[p]);
      assert p in m.tables;
    }
    if InTable(m.tables, f) && !InTable(m0.tables, f) {
      var p :| p in m.tables && f in FramesOf(m.tables[p]);
      assert p in Elems(ts);
      var k :| 0 <= k < |ts| && ts[k] == p;
      FramesSubset(ts, k, m.tables);
    }
  }

  lemma CloneAccounted(boot: set<nat>, skew: int, m0: Memory, m: Memory, ts: seq<nat>)
    requires Accounted(boot, skew, m0) && NewTables(m0, m, ts) && (forall p <- ts :: p in m.tables) && NewFrames(m0, m, ts)
    ensures Accounted(boot, skew, m)
  {
    hide FramesOf, AllFrames, InTable, NewTables;
    var fs := AllFrames(ts, m.tables);
    GrownSize(m0.taken, m.taken, fs);
    forall f
      ensures InTable(m.tables, f) <==> InTable(m0.tables, f) || f in Elems(fs)
    {
      CloneInTable(m0, m, ts, f);
    }
  }

  /** One table's frames change to `t`'s. */
  lemma ChangedInTable(tables: map<nat, Table>, p: nat, t: Table, f: nat)
    requires OneFrame(tables) && p in tables
    ensures f !in FramesOf(tables[p]) ==> (InTable(tables[p := t], f) <==> InTable(tables, f) || f in FramesOf(t))
    ensures f in FramesOf(tables[p]) ==> (InTable(tables[p := t], f) <==> f in FramesOf(t))
  {
    hide FramesOf;
    var tables' := tables[p := t];
    if f in FramesOf(t) {
      assert p in tables' && f in FramesOf(tables'[p]);
    }
    if InTable(tables', f) && f !in FramesOf(t) {
      var q :| q in tables' && f in FramesOf(tables'[q]);
      assert q != p && f in Elems(FramesOf(tables[q]));
      assert f !in Elems(FramesOf(tables[p]));
    }
    if InTable(tables, f) && f !in FramesOf(tables[p]) {
      var q :| q in tables && f in FramesOf(tables[q]);
      assert q in tables' && tables'[q] == tables[q];
    }
  }

  lemma MadeAccounted(boot: set<nat>, skew: int, s: State, d: nat, i: nat)
    requires Inv(s) && Accounted(boot, skew, s.mem) && d in s.dirs && i < |s.dirs[d]|
    ensures Accounted(boot, skew, Made(s, d, i).mem)
  {
    hide FramesOf, OneFrame, OneOwner, Reached;
    if s.dirs[d][i] == 0 {
      var t, m := s.mem.next, Made(s, d, i).mem;
      NoFrames(m.tables[t]);
      forall f
        ensures InTable(m.tables, f) <==> InTable(s.mem.tables, f)
      {
        if InTable(s.mem.tables, f) {
          var p :| p in s.mem.tables && f in FramesOf(s.mem.tables[p]);
          assert p in m.tables && m.tables[p] == s.mem.tables[p];
        }
      }
    }
  }

  lemma FilledAccounted(boot: set<nat>, skew: int, s: State, p: nat, j: nat, page: Page)
    requires Inv(s) && Accounted(boot, skew, s.mem) && p in s.mem.tables && j < |s.mem.tables[p]|
    requires s.mem.tables[p][j].addr == 0 && page.addr !in s.mem.taken
    ensures Accounted(boot, skew, Filled(s, p, j, page).mem)
  {
    hide FramesOf, InTable, OneFrame, OneOwner, Reached, Sound;
    var t := s.mem.tables[p][j := page];
    TableFrames(s.mem, p);
    assert page.addr !in Elems(FramesOf(s.mem.tables[p]));
    FrameNoDup(s.mem.tables, p);
    FramesOfFill(s.mem.tables[p], j, page);
    forall f
      ensures InTable(s.mem.tables[p := t], f) <==> InTable(s.mem.tables, f) || f == page.addr
    {
      ChangedInTable(s.mem.tables, p, t, f);
      assert f in Elems(FramesOf(t)) <==> f in Elems(FramesOf(s.mem.tables[p])) || f == page.addr;
      FoundInTable(s.mem.tables, p, f);
    }
  }

  lemma FoundInTable(tables: map<nat, Table>, p: nat, f: nat)
    requires p in tables
    ensures f in FramesOf(tables[p]) ==> InTable(tables, f)
  {
  }

  lemma UnmappedAccounted(boot: set<nat>, skew: int, s: State, p: nat, j: nat)
    requires Inv(s) && Accounted(boot, skew, s.mem) && p in s.mem.tables && j < |s.mem.tables[p]|
    requires s.mem.tables[p][j].addr != 0
    ensures Accounted(boot, skew, Unmapped(s, p, j).mem)
  {
    hide FramesOf, InTable, OneFrame, OneOwner, Reached, Sound;
    var g, t := s.mem.tables[p][j].addr, Unmapped(s, p, j).mem.tables[p];
    FrameNoDup(s.mem.tables, p);
    FramesOfMember(s.mem.tables[p], j);
    FramesOfClear(s.mem.tables[p], j, t[j]);
    FoundInTable(s.mem.tables, p, g);
    forall f
      ensures InTable(s.mem.tables[p := t], f) <==> InTable(s.mem.tables, f) && f != g
    {
      ChangedInTable(s.mem.tables, p, t, f);
      assert f in Elems(FramesOf(t)) <==> f in Elems(FramesOf(s.mem.tables[p])) && f != g;
      FoundInTable(s.mem.tables, p, f);
    }
  }

  lemma ReleasedInTable(s: State, d: nat, f: nat)
    requires Inv(s) && d in s.dirs && d != s.kernelPd
    ensures InTable(Released(s, d).mem.tables, f) <==> InTable(s.mem.tables, f) && f !in OwnFrames(s, d)
  {
    hide FramesOf, OneFrame, OneOwner, Reached, Sound, Own, AllFrames;
    OwnListed(s, d);
    var ts, tables, tables' := Own(s, d), s.mem.tables, Released(s, d).mem.tables;
    if InTable(tables', f) {
      var p :| p in tables' && f in FramesOf(tables'[p]);
      OwnFramesApart(ts, tables, p);
      assert p in tables && f in Elems(FramesOf(tables[p]));
    }
    if InTable(tables, f) && f !in OwnFrames(s, d) {
      var p :| p in tables && f in FramesOf(tables[p]);
      if p in ts {
        var k :| 0 <= k < |ts| && ts[k] == p;
        FramesSubset(ts, k, tables);
      }
      assert p in tables';
    }
  }

  lemma ReleasedAccounted(boot: set<nat>, skew: int, s: State, d: nat)
    requires Inv(s) && Accounted(boot, skew, s.mem) && d in s.dirs && d != s.kernelPd
    ensures Accounted(boot, skew, Released(s, d).mem)
  {
    hide Inv, InTable, Own, AllFrames, Only;
    ReleaseExact(s, d);
    InvParts(s);
    OwnListed(s, d);
    forall f
      ensures InTable(Released(s, d).mem.tables, f) <==> InTable(s.mem.tables, f) && f !in Elems(OwnFrames(s, d))
      ensures f in Elems(OwnFrames(s, d)) ==> f !in boot
    {
      ReleasedInTable(s, d, f);
      if f in OwnFrames(s, d) {
        var k := AllFramesFrom(Own(s, d), s.mem.tables, f);
        FoundInTable(s.mem.tables, Own(s, d)[k], f);
      }
    }
  }

  lemma StepAccounted(boot: set<nat>, skew: int, s: State, c: Call, t: State)
    requires Inv(s) && Steps(s, c, t) && Accounted(boot, skew, s.mem)
    ensures Accounted(boot, skew, t.mem)
  {
    hide Inv, ClonedTo, MappedTo, Unmapped, Released, InTable;
    match c
    case Clone(src) => ClonedAccounted(boot, skew, s, src, t);
    case Map(d, i, j, kernelMode, rw) => MappedAccounted(boot, skew, s, c, t);
    case Unmap(d, i, j) => UnmappedAccounted(boot, skew, s, s.dirs[d][i], j);
    case Store(d, i, j, bytes) =>
    case Release(d) => ReleasedAccounted(boot, skew, s, d);
  }

  lemma ClonedAccounted(boot: set<nat>, skew: int, s: State, src: nat, t: State)
    requires ClonedTo(s, src, t) && Accounted(boot, skew, s.mem)
    ensures Accounted(boot, skew, t.mem)
  {
    hide Cloned, InTable, NewTables, NewFrames, OwnTables;
    var m0, copy := s.mem.(next := s.mem.next + 1), t.dirs[s.mem.next];
    CloneLength(m0, t.mem, s.dirs[src], KernelDir(s), copy);
    CloneParts(m0, t.mem, s.dirs[src], KernelDir(s), copy);
    CloneAccounted(boot, skew, m0, t.mem, OwnTables(copy, KernelDir(s)));
  }

  lemma MappedAccounted(boot: set<nat>, skew: int, s: State, c: Call, t: State)
    requires Inv(s) && c.Map? && MappedTo(s, c, t) && Accounted(boot, skew, s.mem)
    ensures Accounted(boot, skew, t.mem)
  {
    hide Inv, Made, Filled, Accounted, Entry;
    MadeKeepsInv(s, c.d, c.i);
    MadeAccounted(boot, skew, s, c.d, c.i);
    var m := Made(s, c.d, c.i);
    if t != m {
      var f := Entry(t.dirs[c.d], t.mem.tables, c.i, c.j).addr;
      MadeTaken(s, c.d, c.i);
      FilledAccounted(boot, skew, m, m.dirs[c.d][c.i], c.j, Page(true, c.rw, !c.kernelMode, false, false, f));
    }
  }

  lemma MadeTaken(s: State, d: nat, i: nat)
    requires d in s.dirs && i < |s.dirs[d]|
    ensures var m := Made(s, d, i); m.mem.taken == s.mem.taken && d in m.dirs && i < |m.dirs[d]|
  {
  }

  lemma {:induction false} RunAccounted(run: seq<State>, calls: seq<Call>, i: nat)
    requires IsRun(run, calls) && i < |run| && 0 in run[0].mem.taken
    requires run[0] == Start(run[0].mem.taken, run[0].mem.used, run[0].mem.content)
    ensures Accounted(run[0].mem.taken, run[0].mem.used - |run[0].mem.taken|, run[i].mem)
  {
    hide Steps, Inv;
    if i > 0 {
      RunAccounted(run, calls, i - 1);
      RunInv(run, calls, i - 1);
      StepAccounted(run[0].mem.taken, run[0].mem.used - |run[0].mem.taken|, run[i - 1], calls[i - 1], run[i - 1 + 1]);
    }
  }

  /** A frame is in a table if and only if some directory maps it: no table is orphaned. */
  lemma InTableIsMapped(s: State, f: nat)
    requires Inv(s)
    ensures InTable(s.mem.tables, f) <==> exists d :: Maps(s, d, f)
  {
    hide FramesOf, OneOwner, OneFrame, Sound;
    if InTable(s.mem.tables, f) {
      var p :| p in s.mem.tables && f in FramesOf(s.mem.tables[p]);
      var d: nat, i: nat :| Holds(s.dirs, d, i, p);
      var j := FramesOfIndex(s.mem.tables[p], f);
      assert Entry(s.dirs[d], s.mem.tables, i, j).addr == f;
      assert Maps(s, d, f);
    }
    if d :| Maps(s, d, f) {
      var i: nat, j: nat :| Entry(s.dirs[d], s.mem.tables, i, j).addr == f;
      MapsInTable(s, d, i, j);
    }
  }

  /** In every run no frame leaks: taken are exactly those taken at boot and those some address space
      maps, never both, and the used count has moved by exactly the change in their number. */
  lemma NoFrameLeaks(run: seq<State>, calls: seq<Call>, i: nat, f: nat)
    requires IsRun(run, calls) && i < |run| && 0 in run[0].mem.taken
    requires run[0] == Start(run[0].mem.taken, run[0].mem.used, run[0].mem.content)
    ensures f in run[i].mem.taken <==> f in run[0].mem.taken || exists d :: Maps(run[i], d, f)
    ensures f in run[0].mem.taken ==> !exists d :: Maps(run[i], d, f)
    ensures run[i].mem.used - run[0].mem.used == |run[i].mem.taken| - |run[0].mem.taken|
  {
    hide Inv, Start, Maps, InTable;
    RunInv(run, calls, i);
    RunAccounted(run, calls, i);
    InTableIsMapped(run[i], f);
  }
}

/** Every call keeps the ownership of tables and frames. */
module SpaceProofs {
  import opened Seqs
  import opened PageTables
  import opened FrameGrowth
  import opened CloneProofs
  import opened ForkView
  import opened Spaces

  lemma TableFrames(m: Memory, p: nat)
    requires Sound(m) && p in m.tables
    ensures Elems(FramesOf(m.tables[p])) <= m.taken && 0 !in FramesOf(m.tables[p])
  {
    FramesOfTaken(m.tables[p], m.taken, |m.content|);
  }

  // ---- Cloning a directory ----

  /** The frames of a new table are among those taken for the clone. */
  lemma NewTableFrames(m0: Memory, m: Memory, ts: seq<nat>, k: nat)
    requires NewTables(m0, m, ts) && (forall p <- ts :: p in m.tables) && NewFrames(m0, m, ts) && k < |ts|
    ensures NoDup(FramesOf(m.tables[ts[k]])) && Elems(FramesOf(m.tables[ts[k]])) <= m.taken
    ensures Elems(FramesOf(m.tables[ts[k]])) !! m0.taken
  {
    hide FramesOf, AllFrames;
    FramesSubset(ts, k, m.tables);
    AllFramesNoDupAt(ts, m.tables, k);
    assert FramesAt(ts[k], m.tables) == FramesOf(m.tables[ts[k]]);
  }

  lemma NewTablesApart(m: Memory, ts: seq<nat>, k: nat, l: nat)
    requires (forall p <- ts :: p in m.tables) && NoDup(AllFrames(ts, m.tables)) && k < |ts| && l < |ts| && k != l
    ensures Elems(FramesOf(m.tables[ts[k]])) !! Elems(FramesOf(m.tables[ts[l]]))
  {
    hide FramesOf, AllFrames;
    AllFramesApart(ts, m.tables, if k < l then k else l, if k < l then l else k);
    assert FramesAt(ts[k], m.tables) == FramesOf(m.tables[ts[k]]);
    assert FramesAt(ts[l], m.tables) == FramesOf(m.tables[ts[l]]);
  }

  lemma CloneOneFrame(m0: Memory, m: Memory, ts: seq<nat>)
    requires Sound(m0) && OneFrame(m0.tables) && NewTables(m0, m, ts)
    requires (forall p <- ts :: p in m.tables) && NewFrames(m0, m, ts)
    ensures OneFrame(m.tables)
  {
    hide FramesOf, AllFrames, NewFrames, Sound;
    forall p | p in m.tables
      ensures NoDup(FramesOf(m.tables[p]))
    {
      if p !in m0.tables {
        var k :| 0 <= k < |ts| && ts[k] == p;
        NewTableFrames(m0, m, ts, k);
      }
    }
    forall p, q | p in m.tables && q in m.tables && p != q
      ensures Elems(FramesOf(m.tables[p])) !! Elems(FramesOf(m.tables[q]))
    {
      ClonePair(m0, m, ts, p, q);
    }
  }

  lemma ClonePair(m0: Memory, m: Memory, ts: seq<nat>, p: nat, q: nat)
    requires Sound(m0) && OneFrame(m0.tables) && NewTables(m0, m, ts)
    requires (forall p <- ts :: p in m.tables) && NewFrames(m0, m, ts)
    requires p in m.tables && q in m.tables && p != q
    ensures Elems(FramesOf(m.tables[p])) !! Elems(FramesOf(m.tables[q]))
  {
    hide FramesOf, AllFrames, Sound;
    if p in m0.tables {
      TableFrames(m0, p);
    }
    if q in m0.tables {
      TableFrames(m0, q);
    }
    if p !in m0.tables {
      var k :| 0 <= k < |ts| && ts[k] == p;
      NewTableFrames(m0, m, ts, k);
      if q !in m0.tables {
        var l :| 0 <= l < |ts| && ts[l] == q;
        NewTablesApart(m, ts, k, l);
      }
    } else if q !in m0.tables {
      var l :| 0 <= l < |ts| && ts[l] == q;
      NewTableFrames(m0, m, ts, l);
    }
  }

  /** A new table is the copy of an old one. */
  lemma NewTableCopy(m0: Memory, m: Memory, src: Directory, kernel: Directory, copy: Directory, p: nat) returns (s: nat)
    requires Cloned(m0, m, src, kernel, copy) && p in OwnTables(copy, kernel)
    ensures s in m0.tables && p in m.tables && TableCopy(m0.tables[s], m.tables[p], m0.content, m.content)
  {
    hide NewTables, NewFrames, OwnTables, AllFrames, TableCopy;
    var i := OwnIndex(copy, kernel, p);
    assert DirEntryCopy(src[i], kernel[i], copy[i], m0, m);
    s := src[i];
  }

  lemma NewTableMapped(m0: Memory, m: Memory, src: Directory, kernel: Directory, copy: Directory, p: nat)
    requires Cloned(m0, m, src, kernel, copy) && p in OwnTables(copy, kernel)
    requires forall q <- m0.tables :: |m0.tables[q]| == ENTRIES
    ensures p in m.tables && |m.tables[p]| == ENTRIES && MappedIn(m.tables[p], m.taken, |m.content|)
  {
    hide OwnTables, AllFrames, FramesOf, NewFrames, NewTables;
    var ts := OwnTables(copy, kernel);
    var s := NewTableCopy(m0, m, src, kernel, copy, p);
    var k :| 0 <= k < |ts| && ts[k] == p;
    NewTablesIn(m0, m, ts);
    NewTableFrames(m0, m, ts, k);
    forall i | 0 <= i < |m.tables[p]| && m.tables[p][i].addr != 0
      ensures m.tables[p][i].addr in m.taken && m.tables[p][i].addr < |m.content|
    {
      FramesOfMember(m.tables[p], i);
      assert EntryCopy(m0.tables[s][i], m.tables[p][i], m0.content, m.content);
    }
  }

  lemma CloneSound(m0: Memory, m: Memory, src: Directory, kernel: Directory, copy: Directory)
    requires Sound(m0) && m0.next > 0 && Cloned(m0, m, src, kernel, copy) && forall q <- m0.tables :: |m0.tables[q]| == ENTRIES
    ensures Sound(m) && forall q <- m.tables :: |m.tables[q]| == ENTRIES
  {
    hide OwnTables, AllFrames, FramesOf, Cloned, MappedIn;
    CloneLength(m0, m, src, kernel, copy);
    CloneParts(m0, m, src, kernel, copy);
    var ts := OwnTables(copy, kernel);
    forall p | p in m.tables
      ensures 0 < p < m.next && |m.tables[p]| == ENTRIES && MappedIn(m.tables[p], m.taken, |m.content|)
    {
      if p in m0.tables {
        MappedMore(m0.tables[p], m0.taken, m.taken, |m0.content|);
      } else {
        assert p in Elems(ts);
        NewTableMapped(m0, m, src, kernel, copy, p);
      }
    }
  }

  lemma CloneParts(m0: Memory, m: Memory, src: Directory, kernel: Directory, copy: Directory)
    requires Cloned(m0, m, src, kernel, copy)
    ensures NewTables(m0, m, OwnTables(copy, kernel)) && (forall p <- OwnTables(copy, kernel) :: p in m.tables)
    ensures NewFrames(m0, m, OwnTables(copy, kernel)) && Kept(m0.taken, m0.content, m.content) && m0.taken <= m.taken
  {
    hide OwnTables, AllFrames, FramesOf, DirEntryCopy;
    NewTablesIn(m0, m, OwnTables(copy, kernel));
  }

  lemma MappedMore(t: Table, taken: set<nat>, taken': set<nat>, n: nat)
    requires MappedIn(t, taken, n) && taken <= taken'
    ensures MappedIn(t, taken', n)
  {
  }

  /** What a slot of the clone holds: nothing, the kernel's table, or a table that did not exist. */
  lemma CloneSlot(m0: Memory, m: Memory, src: Directory, kernel: Directory, copy: Directory, i: nat)
    requires Cloned(m0, m, src, kernel, copy) && i < |copy|
    requires kernel[i] != 0 ==> kernel[i] in m0.tables
    ensures copy[i] != 0 ==> copy[i] in m.tables
    ensures copy[i] == 0 || copy[i] == kernel[i] || (copy[i] !in m0.tables && copy[i] != kernel[i])
  {
    hide OwnTables, AllFrames, FramesOf, NewFrames, TableCopy;
    assert DirEntryCopy(src[i], kernel[i], copy[i], m0, m);
  }

  lemma CloneApart(m0: Memory, m: Memory, src: Directory, kernel: Directory, copy: Directory, other: Directory)
    requires Cloned(m0, m, src, kernel, copy) && WellFormed(kernel, m0.tables) && WellFormed(other, m0.tables)
    requires NoRepeat(kernel) && (other == kernel || Apart(kernel, other, kernel))
    ensures Apart(copy, other, kernel) && Apart(other, copy, kernel)
  {
    hide Cloned;
    assert |copy| <= |kernel| by { CloneLength(m0, m, src, kernel, copy); }
    forall i, j | 0 <= i < |copy| && 0 <= j < |other| && copy[i] == other[j] && copy[i] != 0
      ensures i == j && copy[i] == kernel[i]
    {
      CloneSlot(m0, m, src, kernel, copy, i);
    }
  }

  lemma CloneLength(m0: Memory, m: Memory, src: Directory, kernel: Directory, copy: Directory)
    requires Cloned(m0, m, src, kernel, copy)
    ensures |src| == |copy| <= |kernel|
  {
  }

  lemma CloneNoRepeat(m0: Memory, m: Memory, src: Directory, kernel: Directory, copy: Directory)
    requires Cloned(m0, m, src, kernel, copy) && WellFormed(kernel, m0.tables) && NoRepeat(kernel)
    ensures NoRepeat(copy)
  {
    hide Cloned, OwnTables, NewTables, NewFrames;
    CloneParts(m0, m, src, kernel, copy);
    CloneLength(m0, m, src, kernel, copy);
    assert NoDup(OwnTables(copy, kernel)) by { NewTablesNoDup(m0, m, OwnTables(copy, kernel)); }
    forall i, j | 0 <= i < j < |copy| && copy[i] != 0
      ensures copy[i] != copy[j]
    {
      CloneSlot(m0, m, src, kernel, copy, i);
      CloneSlot(m0, m, src, kernel, copy, j);
      if copy[i] != kernel[i] && copy[j] != kernel[j] {
        OwnDistinct(copy, kernel, i, j);
      }
    }
  }

  lemma NewTablesNoDup(m0: Memory, m: Memory, ts: seq<nat>)
    requires NewTables(m0, m, ts)
    ensures NoDup(ts)
  {
  }

  /** One more cloned table, not yet in any directory. */
  lemma TableClonedSane(s: State, t: State, src: nat, p: nat)
    requires Shaped(s) && Sound(s.mem) && TableCloned(s.mem, t.mem, src, p) && t.dirs == s.dirs && t.kernelPd == s.kernelPd
    requires MappedIn(t.mem.tables[p], t.mem.taken, |t.mem.content|)
    ensures Shaped(t) && Sound(t.mem)
  {
    hide MappedIn, FramesOf, EntryCopy;
    forall q | q in t.mem.tables
      ensures MappedIn(t.mem.tables[q], t.mem.taken, |t.mem.content|)
    {
      if q != p {
        MappedMore(s.mem.tables[q], s.mem.taken, t.mem.taken, |s.mem.content|);
      }
    }
  }

  lemma AddDirectory(dirs: map<nat, Directory>, kernel: Directory, d: nat, c: Directory)
    requires OneOwner(dirs, kernel) && d !in dirs && NoRepeat(c)
    requires forall e <- dirs :: Apart(c, dirs[e], kernel) && Apart(dirs[e], c, kernel)
    ensures OneOwner(dirs[d := c], kernel)
  {
    hide NoRepeat, Apart;
  }

  lemma CloneReached(s: State, t: State, src: Directory, copy: Directory)
    requires Reached(s.dirs, s.mem.tables) && s.mem.next !in s.dirs && t.dirs == s.dirs[s.mem.next := copy] && |copy| <= |KernelDir(s)|
    requires NewTables(s.mem.(next := s.mem.next + 1), t.mem, OwnTables(copy, KernelDir(s)))
    ensures Reached(t.dirs, t.mem.tables)
  {
    hide OwnTables;
    forall p | p in t.mem.tables
      ensures exists d: nat, i: nat :: Holds(t.dirs, d, i, p)
    {
      if p in s.mem.tables {
        var d: nat, i: nat :| Holds(s.dirs, d, i, p);
        assert Holds(t.dirs, d, i, p);
      } else {
        assert p in Elems(OwnTables(copy, KernelDir(s)));
        var i := OwnIndex(copy, KernelDir(s), p);
        assert Holds(t.dirs, s.mem.next, i, p);
      }
    }
  }

  lemma CloneShaped(s: State, src: nat, t: State)
    requires Shaped(s) && Sound(s.mem) && ClonedTo(s, src, t)
    ensures Shaped(t) && Sound(t.mem) && KernelDir(t) == KernelDir(s) && s.mem.next !in s.dirs
  {
    hide Cloned, Sound;
    var m0, kernel, copy := s.mem.(next := s.mem.next + 1), KernelDir(s), t.dirs[s.mem.next];
    assert Sound(m0) by { SoundLater(s.mem); }
    CloneSound(m0, t.mem, s.dirs[src], kernel, copy);
    CloneLength(m0, t.mem, s.dirs[src], kernel, copy);
    CloneParts(m0, t.mem, s.dirs[src], kernel, copy);
    forall i | 0 <= i < |copy| && copy[i] != 0
      ensures copy[i] in t.mem.tables
    {
      CloneSlot(m0, t.mem, s.dirs[src], kernel, copy, i);
    }
    assert WellFormed(copy, t.mem.tables);
    forall d | d in s.dirs
      ensures WellFormed(s.dirs[d], t.mem.tables)
    {
    }
  }

  lemma SoundLater(m: Memory)
    requires Sound(m)
    ensures Sound(m.(next := m.next + 1))
  {
    hide MappedIn;
  }

  lemma CloneOwner(s: State, src: nat, t: State)
    requires Shaped(s) && Sound(s.mem) && OneOwner(s.dirs, KernelDir(s)) && ClonedTo(s, src, t)
    ensures OneOwner(t.dirs, KernelDir(s))
  {
    hide Cloned, Sound, NoRepeat, Apart, WellFormed;
    var m0, kernel, copy := s.mem.(next := s.mem.next + 1), KernelDir(s), t.dirs[s.mem.next];
    CloneNoRepeat(m0, t.mem, s.dirs[src], kernel, copy);
    forall e | e in s.dirs
      ensures Apart(copy, s.dirs[e], kernel) && Apart(s.dirs[e], copy, kernel)
    {
      CloneApart(m0, t.mem, s.dirs[src], kernel, copy, s.dirs[e]);
    }
    AddDirectory(s.dirs, kernel, s.mem.next, copy);
  }

  lemma CloneKeepsInv(s: State, src: nat, t: State)
    requires Inv(s) && ClonedTo(s, src, t)
    ensures Inv(t)
  {
    hide Cloned, Sound, OneOwner, OneFrame, Reached, Shaped;
    CloneShaped(s, src, t);
    CloneOwner(s, src, t);
    var m0, kernel, copy := s.mem.(next := s.mem.next + 1), KernelDir(s), t.dirs[s.mem.next];
    SoundLater(s.mem);
    CloneParts(m0, t.mem, s.dirs[src], kernel, copy);
    CloneLength(m0, t.mem, s.dirs[src], kernel, copy);
    CloneOneFrame(m0, t.mem, OwnTables(copy, kernel));
    CloneReached(s, t, s.dirs[src], copy);
  }

  // ---- Making a table ----

  /** A table that stands nowhere may go into any empty slot, also one of the kernel's. */
  lemma MadeOwner(dirs: map<nat, Directory>, kernelPd: nat, d: nat, i: nat, t: nat, dir: Directory)
    requires kernelPd in dirs && OneOwner(dirs, dirs[kernelPd]) && d in dirs && i < |dirs[d]| && dirs[d][i] == 0
    requires t != 0 && (forall e <- dirs :: t !in dirs[e]) && dir == dirs[d][i := t]
    ensures OneOwner(dirs[d := dir], dirs[d := dir][kernelPd])
  {
    hide NoRepeat, Apart;
    var dirs', kernel, kernel' := dirs[d := dir], dirs[kernelPd], dirs[d := dir][kernelPd];
    PlaceNoRepeat(dirs[d], i, t);
    forall a, b | a in dirs' && b in dirs' && a != b
      ensures Apart(dirs'[a], dirs'[b], kernel')
    {
      PlaceApart(dirs[a], dirs'[a], dirs[b], dirs'[b], kernel, kernel', i, t);
    }
  }

  lemma PlaceNoRepeat(d: Directory, i: nat, t: nat)
    requires i < |d| && NoRepeat(d) && t !in d
    ensures NoRepeat(d[i := t])
  {
  }

  /** `x'` is `x`, or `x` with `t` in its empty slot `i`. */
  predicate Placed(x: Directory, x': Directory, i: nat, t: nat) {
    x' == x || (i < |x| && x[i] == 0 && x' == x[i := t])
  }

  lemma PlaceApart(a: Directory, a': Directory, b: Directory, b': Directory, kernel: Directory, kernel': Directory, i: nat, t: nat)
    requires Apart(a, b, kernel) && t != 0 && t !in a && t !in b
    requires Placed(a, a', i, t) && Placed(b, b', i, t) && Placed(kernel, kernel', i, t) && (a' == a || b' == b)
    ensures Apart(a', b', kernel')
  {
  }

  lemma MadeKeepsInv(s: State, d: nat, i: nat)
    requires Inv(s) && d in s.dirs && i < |s.dirs[d]|
    ensures Inv(Made(s, d, i)) && Made(s, d, i).dirs[d][i] in Made(s, d, i).mem.tables
  {
    hide OneOwner, OneFrame, Reached, MappedIn;
    if s.dirs[d][i] == 0 {
      var t, m := s.mem.next, Made(s, d, i);
      var empty: Table := seq(ENTRIES, _ => UNMAPPED);
      NoFrames(empty);
      assert forall e <- s.dirs :: t !in s.dirs[e];
      MadeOwner(s.dirs, s.kernelPd, d, i, t, m.dirs[d]);
      assert MappedIn(empty, s.mem.taken, |s.mem.content|) by { EmptyMapped(empty, s.mem.taken, |s.mem.content|); }
      AddTable(s.mem.tables, t, empty);
      MadeReached(s, d, i);
    }
  }

  lemma EmptyMapped(t: Table, taken: set<nat>, n: nat)
    requires forall i :: 0 <= i < |t| ==> t[i].addr == 0
    ensures MappedIn(t, taken, n)
  {
  }

  lemma AddTable(tables: map<nat, Table>, p: nat, t: Table)
    requires OneFrame(tables) && FramesOf(t) == []
    ensures OneFrame(tables[p := t])
  {
    hide FramesOf;
  }

  lemma MadeReached(s: State, d: nat, i: nat)
    requires Reached(s.dirs, s.mem.tables) && d in s.dirs && i < |s.dirs[d]| && s.dirs[d][i] == 0 && 0 !in s.mem.tables
    ensures Reached(Made(s, d, i).dirs, Made(s, d, i).mem.tables)
  {
    var m := Made(s, d, i);
    forall p | p in m.mem.tables
      ensures exists e: nat, k: nat :: Holds(m.dirs, e, k, p)
    {
      if p == s.mem.next {
        assert Holds(m.dirs, d, i, p);
      } else {
        var e: nat, k: nat :| Holds(s.dirs, e, k, p);
        assert Holds(m.dirs, e, k, p);
      }
    }
  }

  // ---- Filling and clearing an entry ----

  /** A table whose frames change within those no other table maps. */
  lemma ChangeTable(tables: map<nat, Table>, p: nat, t: Table)
    requires OneFrame(tables) && p in tables && NoDup(FramesOf(t))
    requires forall q <- tables :: q != p ==> Elems(FramesOf(t)) !! Elems(FramesOf(tables[q]))
    ensures OneFrame(tables[p := t])
  {
    hide FramesOf;
  }

  lemma FilledKeepsInv(s: State, p: nat, j: nat, page: Page)
    requires Inv(s) && p in s.mem.tables && j < |s.mem.tables[p]| && s.mem.tables[p][j].addr == 0
    requires page.addr !in s.mem.taken && page.addr < |s.mem.content|
    ensures Inv(Filled(s, p, j, page))
  {
    hide OneOwner, OneFrame, Reached, MappedIn, FramesOf;
    var t := Filled(s, p, j, page);
    var u := t.mem.tables[p];
    forall q | q in s.mem.tables
      ensures page.addr !in FramesOf(s.mem.tables[q]) && MappedIn(t.mem.tables[q], t.mem.taken, |s.mem.content|)
    {
      TableFrames(s.mem, q);
      assert page.addr !in Elems(FramesOf(s.mem.tables[q]));
      FillMapped(s.mem.tables[q], s.mem.taken, |s.mem.content|, j, page);
    }
    FrameNoDup(s.mem.tables, p);
    FramesOfFill(s.mem.tables[p], j, page);
    forall q | q in s.mem.tables && q != p
      ensures Elems(FramesOf(u)) !! Elems(FramesOf(s.mem.tables[q]))
    {
      FramePair(s.mem.tables, p, q);
    }
    ChangeTable(s.mem.tables, p, u);
    SameReached(s.dirs, s.mem.tables, t.mem.tables);
  }

  lemma FrameNoDup(tables: map<nat, Table>, p: nat)
    requires OneFrame(tables) && p in tables
    ensures NoDup(FramesOf(tables[p]))
  {
  }

  lemma FramePair(tables: map<nat, Table>, p: nat, q: nat)
    requires OneFrame(tables) && p in tables && q in tables && p != q
    ensures Elems(FramesOf(tables[p])) !! Elems(FramesOf(tables[q]))
  {
  }

  lemma FillMapped(t: Table, taken: set<nat>, n: nat, j: nat, page: Page)
    requires MappedIn(t, taken, n) && page.addr < n
    ensures MappedIn(t, taken + {page.addr}, n) && (j < |t| ==> MappedIn(t[j := page], taken + {page.addr}, n))
  {
  }

  lemma SameReached(dirs: map<nat, Directory>, tables: map<nat, Table>, tables': map<nat, Table>)
    requires Reached(dirs, tables) && tables'.Keys == tables.Keys
    ensures Reached(dirs, tables')
  {
  }

  /** A table none of whose frames is given back stays mapped. */
  lemma MappedWithout(t: Table, taken: set<nat>, gone: set<nat>, n: nat)
    requires MappedIn(t, taken, n) && Elems(FramesOf(t)) !! gone
    ensures MappedIn(t, taken - gone, n)
  {
    hide FramesOf;
    forall i | 0 <= i < |t| && t[i].addr != 0
      ensures t[i].addr in taken - gone
    {
      FramesOfMember(t, i);
      assert t[i].addr in Elems(FramesOf(t));
    }
  }

  lemma UnmappedKeepsInv(s: State, p: nat, j: nat)
    requires Inv(s) && p in s.mem.tables && j < |s.mem.tables[p]| && s.mem.tables[p][j].addr != 0
    ensures Inv(Unmapped(s, p, j))
  {
    hide OneOwner, OneFrame, Reached, MappedIn, FramesOf;
    var t := Unmapped(s, p, j);
    var f, u := s.mem.tables[p][j].addr, t.mem.tables[p];
    FrameNoDup(s.mem.tables, p);
    FramesOfMember(s.mem.tables[p], j);
    FramesOfClear(s.mem.tables[p], j, u[j]);
    assert f in Elems(FramesOf(s.mem.tables[p]));
    forall q | q in s.mem.tables
      ensures MappedIn(t.mem.tables[q], t.mem.taken, |s.mem.content|)
      ensures q != p ==> Elems(FramesOf(u)) !! Elems(FramesOf(s.mem.tables[q]))
    {
      if q == p {
        ClearMapped(s.mem.tables[p], s.mem.taken, |s.mem.content|, j, u[j]);
      } else {
        FramePair(s.mem.tables, p, q);
      }
      MappedWithout(t.mem.tables[q], s.mem.taken, {f}, |s.mem.content|);
    }
    ChangeTable(s.mem.tables, p, u);
    SameReached(s.dirs, s.mem.tables, t.mem.tables);
  }

  lemma ClearMapped(t: Table, taken: set<nat>, n: nat, j: nat, page: Page)
    requires MappedIn(t, taken, n) && page.addr == 0 && j < |t|
    ensures MappedIn(t[j := page], taken, n)
  {
  }

  // ---- Releasing a directory ----

  /** A table of `d`'s own is in no slot of another directory. */
  lemma OwnIsOwn(s: State, d: nat, e: nat, p: nat)
    requires OneOwner(s.dirs, KernelDir(s)) && d in s.dirs && e in s.dirs && d != e && p in Own(s, d)
    ensures p !in s.dirs[e] && p != 0
  {
    hide OwnTables, NoRepeat;
    var kernel := KernelDir(s);
    var i := OwnIndex(s.dirs[d], kernel, p);
    assert Apart(s.dirs[d], s.dirs[e], kernel);
  }

  lemma {:induction false} OwnNoDup(d: Directory, kernel: Directory)
    requires |d| <= |kernel| && NoRepeat(d)
    ensures NoDup(OwnTables(d, kernel))
  {
    if d != [] {
      var n := |d| - 1;
      OwnNoDup(d[..n], kernel);
      if d[n] in OwnTables(d[..n], kernel) {
        var i := OwnIndex(d[..n], kernel, d[n]);
      }
    }
  }

  lemma OwnListed(s: State, d: nat)
    requires Inv(s) && d in s.dirs
    ensures NoDup(Own(s, d)) && (forall p <- Own(s, d) :: p in s.mem.tables && p != 0) && |KernelDir(s)| == |s.dirs[d]| == ENTRIES
  {
    hide OneFrame, Reached, Sound, Apart, OwnTables;
    OwnNoDup(s.dirs[d], KernelDir(s));
    forall p | p in Own(s, d)
      ensures p in s.mem.tables && p != 0
    {
      var i := OwnIndex(s.dirs[d], KernelDir(s), p);
    }
  }

  lemma {:induction false} AllFramesNoDup(ts: seq<nat>, tables: map<nat, Table>)
    requires NoDup(ts) && (forall p <- ts :: p in tables) && OneFrame(tables)
    ensures NoDup(AllFrames(ts, tables))
  {
    hide FramesOf, OneFrame;
    if ts != [] {
      var n := |ts| - 1;
      var a, b := AllFrames(ts[..n], tables), FramesOf(tables[ts[n]]);
      AllFramesNoDup(ts[..n], tables);
      FrameNoDup(tables, ts[n]);
      forall f | f in Elems(a)
        ensures f !in Elems(b)
      {
        var k := AllFramesFrom(ts[..n], tables, f);
        assert ts[..n][k] == ts[k] != ts[n];
        FramePair(tables, ts[k], ts[n]);
        assert f in Elems(FramesOf(tables[ts[k]]));
      }
      NoDupConcat(a, b);
    }
  }

  /** A frame of one of the listed tables belongs to no other table. */
  lemma OwnFramesApart(ts: seq<nat>, tables: map<nat, Table>, q: nat)
    requires (forall p <- ts :: p in tables) && OneFrame(tables) && q in tables && q !in ts
    ensures Elems(FramesOf(tables[q])) !! Elems(AllFrames(ts, tables))
  {
    hide FramesOf, OneFrame, AllFrames;
    forall f | f in Elems(AllFrames(ts, tables))
      ensures f !in Elems(FramesOf(tables[q]))
    {
      var k := AllFramesFrom(ts, tables, f);
      FramePair(tables, ts[k], q);
      assert f in Elems(FramesOf(tables[ts[k]]));
    }
  }

  lemma ListedFramesTaken(m: Memory, ts: seq<nat>)
    requires Sound(m) && forall p <- ts :: p in m.tables
    ensures forall f <- AllFrames(ts, m.tables) :: f in m.taken && f < |m.content| && f != 0
  {
    hide FramesOf, AllFrames, MappedIn;
    forall f | f in AllFrames(ts, m.tables)
      ensures f in m.taken && f < |m.content| && f != 0
    {
      var k := AllFramesFrom(ts, m.tables, f);
      FramesOfTaken(m.tables[ts[k]], m.taken, |m.content|);
    }
  }

  lemma ReleaseReached(s: State, d: nat)
    requires Inv(s) && d in s.dirs && d != s.kernelPd
    ensures Reached(Released(s, d).dirs, Released(s, d).mem.tables)
  {
    hide OneFrame, OwnTables, AllFrames, OneOwner, Sound;
    var t := Released(s, d);
    OwnListed(s, d);
    forall p | p in t.mem.tables
      ensures exists e: nat, i: nat :: Holds(t.dirs, e, i, p)
    {
      var e: nat, i: nat :| Holds(s.dirs, e, i, p);
      if e == d {
        if p != KernelDir(s)[i] {
          assert 0 !in s.mem.tables by { NullTable(s.mem); }
          OwnMember(s.dirs[d], KernelDir(s), i);
        }
        assert Holds(t.dirs, s.kernelPd, i, p);
      } else {
        assert Holds(t.dirs, e, i, p);
      }
    }
  }

  lemma NullTable(m: Memory)
    requires Sound(m)
    ensures 0 !in m.tables
  {
    hide MappedIn;
  }

  lemma ReleaseShaped(s: State, d: nat)
    requires Inv(s) && d in s.dirs && d != s.kernelPd
    ensures Shaped(Released(s, d)) && KernelDir(Released(s, d)) == KernelDir(s)
  {
    hide OneFrame, OwnTables, AllFrames, OneOwner, Sound, Reached;
    var t := Released(s, d);
    OwnListed(s, d);
    ListedFramesTaken(s.mem, Own(s, d));
    forall e | e in t.dirs
      ensures WellFormed(t.dirs[e], t.mem.tables)
    {
      forall i | 0 <= i < |s.dirs[e]| && s.dirs[e][i] != 0
        ensures s.dirs[e][i] in t.mem.tables
      {
        if s.dirs[e][i] in Own(s, d) {
          OwnIsOwn(s, d, e, s.dirs[e][i]);
        }
      }
    }
  }

  lemma ReleaseKeepsInv(s: State, d: nat)
    requires Inv(s) && d in s.dirs && d != s.kernelPd
    ensures Inv(Released(s, d))
  {
    hide OneFrame, Own, AllFrames, Reached, Shaped, MappedIn, NoRepeat, Apart;
    var t := Released(s, d);
    ReleaseShaped(s, d);
    ReleaseReached(s, d);
    OwnListed(s, d);
    forall q | q in t.mem.tables
      ensures MappedIn(t.mem.tables[q], t.mem.taken, |t.mem.content|)
    {
      assert q !in Elems(Own(s, d));
      OwnFramesApart(Own(s, d), s.mem.tables, q);
      MappedWithout(s.mem.tables[q], s.mem.taken, Elems(OwnFrames(s, d)), |s.mem.content|);
    }
    FewerTables(s.mem.tables, t.mem.tables);
  }

  lemma FewerTables(tables: map<nat, Table>, tables': map<nat, Table>)
    requires OneFrame(tables) && forall p <- tables' :: p in tables && tables'[p] == tables[p]
    ensures OneFrame(tables')
  {
    hide FramesOf;
  }
}

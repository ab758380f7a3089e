/** Address spaces: cloning a page directory on fork and releasing it on reap, over the frame
    bitmap and the contents of physical frames. Pointers are numbers, 0 is null. */
module Mmu {
  import opened Frames
  import opened PageTables
  import opened Seqs
  import opened FrameGrowth
  import opened CloneProofs
  import opened ForkView
  import opened Spaces
  import opened SpaceProofs
  import opened SpaceRuns

  class AddressSpaces {
    const frames: FrameMap
    var tables: map<nat, Table>
    var dirs: map<nat, Directory>
    var kernelPd: nat
    var nextPtr: nat
    var content: seq<Bytes>

    /** An empty kernel directory over a bitmap whose frame 0 is taken, as `mmu_init` takes it. */
    constructor (frames: FrameMap, content: seq<Bytes>)
      requires frames.Valid() && |content| == frames.Capacity() && 0 in frames.Taken()
      ensures Valid() && this.frames == frames && View() == Start(frames.Taken(), frames.used, content)
    {
      this.frames, this.content, tables := frames, content, map[];
      dirs, kernelPd, nextPtr := map[1 := seq(ENTRIES, _ => 0)], 1, 2;
      new;
      StartInv(frames.Taken(), frames.used, content);
    }

    ghost function Snap(): Memory
      reads this, frames, frames.words
    {
      Memory(frames.Taken(), frames.used, tables, nextPtr, content)
    }

    ghost function View(): State
      reads this, frames, frames.words
    {
      State(Snap(), dirs, kernelPd)
    }

    ghost predicate Valid()
      reads this, frames, frames.words
    {
      FramesReady() && Inv(View())
    }

    /** `Valid` without the ownership of tables and frames; it holds while a clone is being built. */
    ghost predicate Sane()
      reads this, frames, frames.words
    {
      FramesReady() && Shaped(View()) && Sound(Snap())
    }

    /** Enough of `Valid` for the frame allocator and the page copies. */
    ghost predicate FramesReady()
      reads `content, frames, frames.words
    {
      frames.Valid() && |content| == frames.Capacity() && 0 in frames.Taken()
    }

    /** `page_map` on an unmapped entry and the flag copying of `table_clone`, then the copy of the page. */
    method CloneEntry(src: Page) returns (page: Page)
      requires FramesReady() && |frames.Taken()| < frames.Capacity()
      requires src.addr != 0 && src.addr in frames.Taken() && src.addr < |content|
      modifies `content, frames.words, frames`used
      ensures FramesReady() && EntryCopy(src, page, old(content), content)
      ensures Grown(old(frames.Taken()), frames.Taken(), [page.addr]) && frames.used == old(frames.used) + 1
      ensures Kept(old(frames.Taken()), old(content), content)
    {
      hide TakenIn;
      var frame := frames.AllocFrame();
      page := CopyFlags(src, frame);
      content := content[page.addr := content[src.addr]];
      assert page.addr !in old(frames.Taken());
    }

    /** `page_map(entry, 0, 0)` on an empty entry, then the flags set in `src`. */
    static method CopyFlags(src: Page, frame: nat) returns (page: Page)
      ensures page == Page(true, src.rw, true, src.accessed, src.dirty, frame)
    {
      page := UNMAPPED.(rw := false, user := true, present := true, addr := frame);
      if src.present { page := page.(present := true); }
      if src.rw { page := page.(rw := true); }
      if src.user { page := page.(user := true); }
      if src.accessed { page := page.(accessed := true); }
      if src.dirty { page := page.(dirty := true); }
    }

    /** The loop of `table_clone`: a fresh frame with the same contents for every mapped page. */
    method CloneEntries(from: Table) returns (tabl: Table)
      requires FramesReady() && |from| == ENTRIES && MappedIn(from, frames.Taken(), |content|)
      requires |frames.Taken()| + |FramesOf(from)| <= frames.Capacity()
      modifies `content, frames.words, frames`used
      ensures FramesReady() && TableCopy(from, tabl, old(content), content) && MappedIn(tabl, frames.Taken(), |content|)
      ensures Grown(old(frames.Taken()), frames.Taken(), FramesOf(tabl))
      ensures frames.used == old(frames.used) + |FramesOf(tabl)| && |FramesOf(tabl)| == |FramesOf(from)|
      ensures Kept(old(frames.Taken()), old(content), content)
    {
      hide TakenIn, FramesOf, Grown, EntryCopy, Kept;
      tabl := seq(ENTRIES, _ => UNMAPPED);
      var i := 0;
      EmptyStart(tabl, from, frames.Taken(), content);
      while i < ENTRIES
        invariant 0 <= i <= ENTRIES && |tabl| == ENTRIES && FramesReady()
        invariant forall k :: i <= k < ENTRIES ==> tabl[k] == UNMAPPED
        invariant Kept(old(frames.Taken()), old(content), content)
        invariant forall k :: 0 <= k < i ==> EntryCopy(from[k], tabl[k], old(content), content)
        invariant MappedIn(tabl, frames.Taken(), |content|)
        invariant Grown(old(frames.Taken()), frames.Taken(), FramesOf(tabl[..i]))
        invariant |FramesOf(tabl[..i])| == |FramesOf(from[..i])|
        invariant frames.used == old(frames.used) + |FramesOf(tabl[..i])|
      {
        FramesOfNext(from, i);
        FramesOfPrefix(from, i + 1);
        GrownSize(old(frames.Taken()), frames.Taken(), FramesOf(tabl[..i]));
        ghost var before, content0, taken0 := tabl, content, frames.Taken();
        if from[i].addr != 0 {
          GrownFrame(old(frames.Taken()), taken0, FramesOf(tabl[..i]), old(content), content, from[i].addr);
          var page := CloneEntry(from[i]);
          EntryThrough(from[i], page, old(content), content0, content);
          tabl := tabl[i := page];
          StepKept(old(frames.Taken()), taken0, frames.Taken(), FramesOf(before[..i]), [page.addr], old(content), content0, content);
          EntriesKept(from, before, i, taken0, old(content), content0, content);
        } else {
          UnmappedCopy(from[i], old(content), content);
        }
        assert tabl[..i] == before[..i];
        FramesOfNext(tabl, i);
        assert FramesOf(before[..i]) + [] == FramesOf(before[..i]);
        i := i + 1;
      }
      assert tabl[..ENTRIES] == tabl && from[..ENTRIES] == from;
    }

    /** `table_clone`: the copy is stored under a fresh pointer. */
    method TableClone(src: nat) returns (t: nat)
      requires Sane() && src in tables
      requires |frames.Taken()| + |FramesOf(tables[src])| <= frames.Capacity()
      modifies `tables, `nextPtr, `content, frames.words, frames`used
      ensures Sane()
      ensures TableCloned(old(Snap()), Snap(), src, t)
    {
      hide TakenIn, FramesOf, TableCopy, Grown, Kept;
      var tabl := CloneEntries(tables[src]);
      t := nextPtr;
      tables := tables[t := tabl];
      nextPtr := nextPtr + 1;
      TableClonedSane(old(View()), View(), src, t);
    }

    /** `page_dir_clone`: kernel tables are shared, every other table is copied. */
    method PageDirClone(src: nat) returns (d: nat)
      requires Valid() && src in dirs
      requires |frames.Taken()| + |OwnFrames(View(), src)| <= frames.Capacity()
      modifies this, frames.words, frames`used
      ensures Valid() && Steps(old(View()), Clone(src), View()) && d == old(nextPtr) && d !in old(dirs)
      ensures ChildOf(old(View()), src, View(), d)
    {
      hide TakenIn, Cloned, TableCloned, Sound, OwnTables, AllFrames, FramesOf, OneOwner, OneFrame, Reached, ChildOf;
      d := nextPtr;
      nextPtr := nextPtr + 1;
      var from, kernel := dirs[src], dirs[kernelPd];
      ghost var m0 := Snap();
      SoundLater(old(Snap()));
      var copy := seq(ENTRIES, _ => 0);
      var i := 0;
      assert copy[..0] == [] == from[..0];
      CloneStart(m0, kernel);
      while i < ENTRIES
        invariant 0 <= i <= ENTRIES && |copy| == ENTRIES && (forall k :: i <= k < ENTRIES ==> copy[k] == 0)
        invariant Sane() && dirs == old(dirs) && kernelPd == old(kernelPd)
        invariant Cloned(m0, Snap(), from[..i], kernel, copy[..i])
      {
        ghost var m := Snap();
        ghost var before := copy[..i];
        assert from[..i + 1] == from[..i] + [from[i]];
        if from[i] != 0 {
          if kernel[i] == from[i] {
            copy := copy[i := from[i]];
            ShareStep(m0, m, from[..i], kernel, before, from[i]);
          } else {
            RoomForTable(m0, m, from, kernel, before, i, frames.Capacity());
            var t := TableClone(from[i]);
            copy := copy[i := t];
            CloneStep(m0, m, Snap(), from[..i], kernel, before, from[i], t);
          }
        } else {
          ShareStep(m0, m, from[..i], kernel, before, 0);
        }
        assert copy[..i] == before;
        assert copy[..i + 1] == before + [copy[i]];
        i := i + 1;
      }
      assert copy[..ENTRIES] == copy && from[..ENTRIES] == from;
      dirs := dirs[d := copy];
      CloneKeepsInv(old(View()), src, View());
      CloneIsChild(old(View()), src, View());
    }

    /** `get_page` with `make`: the table covering an address, created empty when it is missing. A
        created table is new, every other slot stays, and no address space sees another entry. */
    method GetTable(d: nat, i: nat) returns (t: nat)
      requires Valid() && d in dirs && i < ENTRIES
      modifies `tables, `dirs, `nextPtr
      ensures Valid() && View() == Made(old(View()), d, i) && dirs.Keys == old(dirs.Keys)
      ensures t == dirs[d][i] && t in tables && (old(dirs[d][i]) != 0 ==> t == old(dirs[d][i]))
      ensures old(dirs[d][i]) == 0 ==> t !in old(tables) && forall e <- old(dirs) :: t !in old(dirs[e])
      ensures forall e <- dirs, k :: 0 <= k < ENTRIES && !(e == d && k == i) ==> dirs[e][k] == old(dirs[e][k])
      ensures forall e <- dirs, k: nat, j: nat :: Entry(dirs[e], tables, k, j) == old(Entry(dirs[e], tables, k, j))
    {
      hide TakenIn, OneOwner, OneFrame, Reached, MappedIn;
      MadeKeepsInv(View(), d, i);
      t := dirs[d][i];
      if t == 0 {
        t := nextPtr;
        nextPtr := nextPtr + 1;
        tables := tables[t := seq(ENTRIES, _ => UNMAPPED)];
        var dir: Directory := dirs[d][i := t];
        dirs := dirs[d := dir];
      }
    }

    /** `page_map` of page `j` of table `i`: a mapped page is left alone, an unmapped one gets a free
        frame and the given permissions. No entry changes but this one, wherever its table is shared. */
    method MapPage(d: nat, i: nat, j: nat, kernelMode: bool, rw: bool)
      requires Valid() && d in dirs && i < ENTRIES && j < ENTRIES
      requires Entry(dirs[d], tables, i, j).addr == 0 ==> |frames.Taken()| < frames.Capacity()
      modifies `tables, `dirs, `nextPtr, frames.words, frames`used
      ensures Valid() && Steps(old(View()), Map(d, i, j, kernelMode, rw), View())
      ensures dirs.Keys == old(dirs.Keys) && dirs[d][i] != 0
      ensures var p, q := old(Entry(dirs[d], tables, i, j)), Entry(dirs[d], tables, i, j);
              if p.addr != 0 then q == p && frames.Taken() == old(frames.Taken()) && frames.used == old(frames.used)
              else q == Page(true, rw, !kernelMode, false, false, q.addr) && q.addr !in old(frames.Taken())
                   && frames.Taken() == old(frames.Taken()) + {q.addr} && frames.used == old(frames.used) + 1
      ensures forall e <- dirs, k, l: nat :: 0 <= k < ENTRIES && !(dirs[e][k] == dirs[d][i] && l == j) ==>
                Entry(dirs[e], tables, k, l) == old(Entry(dirs[e], tables, k, l))
    {
      hide TakenIn, OneOwner, OneFrame, Reached, MappedIn;
      FillPage(d, i, j, kernelMode, rw);
      ghost var s, c := old(View()), Map(d, i, j, kernelMode, rw);
      MapsOnePage(s, c, View());
      forall e, k, l: nat | e in dirs && 0 <= k < ENTRIES
        ensures k < |dirs[e]| && k < |s.dirs[e]|
        ensures !(dirs[e][k] == dirs[d][i] && l == j) ==> Entry(dirs[e], tables, k, l) == Entry(s.dirs[e], s.mem.tables, k, l)
      {
        MapsNothingElse(s, c, View(), e, k, l);
      }
    }

    /** The table is found or made, then an unmapped entry gets a frame. */
    method FillPage(d: nat, i: nat, j: nat, kernelMode: bool, rw: bool)
      requires Valid() && d in dirs && i < ENTRIES && j < ENTRIES
      requires Entry(dirs[d], tables, i, j).addr == 0 ==> |frames.Taken()| < frames.Capacity()
      modifies `tables, `dirs, `nextPtr, frames.words, frames`used
      ensures Valid() && Steps(old(View()), Map(d, i, j, kernelMode, rw), View())
    {
      hide TakenIn, Inv, Made;
      InvSizes(View(), d);
      var t := GetTable(d, i);
      ghost var made := View();
      InvSizes(made, d);
      var page := tables[t][j];
      if page.addr == 0 {
        var frame := frames.AllocFrame();
        page := Page(true, rw, !kernelMode, false, false, frame);
        tables := tables[t := tables[t][j := page]];
        FilledKeepsInv(made, t, j, page);
      }
    }

    /** `page_unmap` of page `j` of an existing table. The address spaces stay sound if and only if the
        page was mapped: unmapping an unmapped page gives frame 0 away. */
    method UnmapPage(d: nat, i: nat, j: nat)
      requires Valid() && d in dirs && i < ENTRIES && j < ENTRIES && dirs[d][i] != 0
      modifies `tables, frames.words, frames`used
      ensures Valid() <==> old(Entry(dirs[d], tables, i, j)).addr != 0
      ensures Valid() ==> Steps(old(View()), Unmap(d, i, j), View())
      ensures var t, p := old(dirs[d][i]), old(Entry(dirs[d], tables, i, j));
              && tables == old(tables)[t := old(tables[dirs[d][i]])[j := p.(addr := 0)]]
              && frames.Taken() == old(frames.Taken()) - {p.addr} && frames.used == old(frames.used) - 1
    {
      hide TakenIn, OneOwner, OneFrame, Reached;
      var t := dirs[d][i];
      var page := tables[t][j];
      frames.TakenBelow(0);
      if page.addr != 0 {
        UnmappedKeepsInv(View(), t, j);
      }
      frames.FreeFrame(page.addr);
      tables := tables[t := tables[t][j := page.(addr := 0)]];
    }

    /** The inner loop of `release_directory`: frees every frame a table maps. */
    method FreeTable(t: Table)
      requires forall f <- FramesOf(t) :: f < frames.Capacity()
      modifies frames.words, frames`used
      ensures frames.Taken() == old(frames.Taken()) - Elems(FramesOf(t))
      ensures frames.used == old(frames.used) - |FramesOf(t)|
    {
      hide TakenIn;
      var j := 0;
      assert FramesOf(t[..0]) == [] && Elems([]) == {};
      while j < |t|
        invariant 0 <= j <= |t|
        invariant frames.Taken() == old(frames.Taken()) - Elems(FramesOf(t[..j]))
        invariant frames.used == old(frames.used) - |FramesOf(t[..j])|
      {
        FramesOfNext(t, j);
        if t[j].addr != 0 {
          FramesOfMember(t, j);
          frames.FreeFrame(t[j].addr);
          ElemsConcat(FramesOf(t[..j]), [t[j].addr]);
        }
        j := j + 1;
      }
      assert t[..|t|] == t;
    }

    /** `release_directory`: frees the frames and tables that are not the kernel's, then the directory.
        The caller has checked that it is not the kernel's own. */
    method ReleaseDirectory(d: nat)
      requires Valid() && d in dirs && d != kernelPd
      modifies `tables, `dirs, frames.words, frames`used
      ensures Valid() && Steps(old(View()), Release(d), View())
      ensures frames.Taken() == old(frames.Taken()) - old(Only(View(), d)) && frames.used == old(frames.used) - old(|Only(View(), d)|)
    {
      hide TakenIn, OwnTables, AllFrames, FramesOf, Inv, Only;
      ghost var s := View();
      OwnListed(s, d);
      InvParts(s);
      ListedFramesTaken(s.mem, Own(s, d));
      ReleaseKeepsInv(s, d);
      ReleaseExact(s, d);
      ReleaseOwn(d);
    }

    /** The two loops of `release_directory`, and `kfree` of the directory. */
    method ReleaseOwn(d: nat)
      requires d in dirs && kernelPd in dirs && |dirs[d]| == |dirs[kernelPd]| == ENTRIES
      requires NoDup(Own(View(), d)) && forall p <- Own(View(), d) :: p in tables
      requires forall f <- OwnFrames(View(), d) :: f < frames.Capacity()
      modifies `tables, `dirs, frames.words, frames`used
      ensures View() == Released(old(View()), d)
    {
      hide TakenIn, OwnTables, AllFrames, FramesOf;
      var dir, kernel := dirs[d], dirs[kernelPd];
      var i := 0;
      ReleaseStart(dir, kernel, tables);
      assert OwnFrames(View(), d) == AllFrames(OwnTables(dir, kernel), tables);
      while i < ENTRIES
        invariant 0 <= i <= ENTRIES && dirs == old(dirs)
        invariant tables == old(tables) - Elems(OwnTables(dir[..i], kernel))
        invariant frames.Taken() == old(frames.Taken()) - Elems(AllFrames(OwnTables(dir[..i], kernel), old(tables)))
        invariant frames.used == old(frames.used) - |AllFrames(OwnTables(dir[..i], kernel), old(tables))|
      {
        OwnTablesNext(dir, kernel, i);
        assert OwnTables(dir[..i], kernel) + [] == OwnTables(dir[..i], kernel);
        if dir[i] != 0 {
          if kernel[i] != dir[i] {
            ReleaseStep(dir, kernel, old(tables), i, frames.Capacity());
            ReleaseFrames(OwnTables(dir[..i], kernel), dir[i], old(tables));
            FreeTable(tables[dir[i]]);
            tables := tables - {dir[i]};
          }
        }
        i := i + 1;
      }
      assert dir[..ENTRIES] == dir;
      dirs := dirs - {d};
    }

    /** Fork then reap: releasing a clone puts back the bitmap, the used count, the tables and the
        directories exactly as they were. */
    method CloneThenRelease(src: nat)
      requires Valid() && src in dirs
      requires |frames.Taken()| + |OwnFrames(View(), src)| <= frames.Capacity()
      modifies this, frames.words, frames`used
      ensures Valid() && frames.Taken() == old(frames.Taken()) && frames.used == old(frames.used)
      ensures tables == old(tables) && dirs == old(dirs) && kernelPd == old(kernelPd)
      ensures Kept(frames.Taken(), old(content), content)
    {
      hide TakenIn, OwnTables, AllFrames, FramesOf, Cloned, Inv, Only, Sound, Kept, ChildOf;
      InvParts(View());
      InvSizes(View(), src);
      SoundLater(old(Snap()));
      var d := PageDirClone(src);
      InvParts(View());
      InvSizes(View(), d);
      assert dirs[kernelPd] == old(dirs[kernelPd]);
      CloneIsOwned(old(Snap()).(next := d + 1), Snap(), old(dirs[src]), dirs[kernelPd], dirs[d]);
      ReleaseDirectory(d);
    }
  }

  /** The frames still needed for table `i` fit beside those already taken. */
  lemma RoomForTable(m0: Memory, m: Memory, from: Directory, kernel: Directory, copy: Directory, i: nat, capacity: nat)
    requires i < |from| <= |kernel| && Cloned(m0, m, from[..i], kernel, copy)
    requires from[i] != 0 && from[i] != kernel[i] && from[i] in m0.tables
    requires |m0.taken| + |AllFrames(OwnTables(from, kernel), m0.tables)| <= capacity
    ensures from[i] in m.tables && m.tables[from[i]] == m0.tables[from[i]]
    ensures |m.taken| + |FramesOf(m.tables[from[i]])| <= capacity
  {
    hide OwnTables, AllFrames, FramesOf, Grown;
    GrownSize(m0.taken, m.taken, AllFrames(OwnTables(copy, kernel), m.tables));
    OwnFramesPrefix(from, kernel, m0.tables, i);
  }

  lemma ReleaseStart(dir: Directory, kernel: Directory, tables: map<nat, Table>)
    requires |dir| <= |kernel|
    ensures OwnTables(dir[..0], kernel) == [] && AllFrames([], tables) == [] && Elems([]) == {}
    ensures tables - Elems([]) == tables
  {
  }

  /** Table `i` is still there when its turn comes, and all its frames are in the bitmap. */
  lemma ReleaseStep(dir: Directory, kernel: Directory, tables: map<nat, Table>, i: nat, capacity: nat)
    requires i < |dir| <= |kernel| && dir[i] != 0 && dir[i] != kernel[i]
    requires NoDup(OwnTables(dir, kernel)) && forall p <- OwnTables(dir, kernel) :: p in tables
    requires forall f <- AllFrames(OwnTables(dir, kernel), tables) :: f < capacity
    ensures var ts := OwnTables(dir[..i], kernel);
            dir[i] in tables && dir[i] !in Elems(ts) && (forall q <- ts :: q in tables)
    ensures forall f <- FramesOf(tables[dir[i]]) :: f < capacity
  {
    hide OwnTables, AllFrames, FramesOf;
    var ts, p := OwnTables(dir[..i], kernel), dir[i];
    OwnTablesNext(dir, kernel, i);
    OwnPrefix(dir, kernel, i + 1);
    var all := OwnTables(dir, kernel);
    assert (ts + [p])[|ts|] == p == all[|ts|];
    assert forall k :: 0 <= k < |ts| ==> ts[k] == (ts + [p])[k] == all[k];
    FramesSubset(all, |ts|, tables);
    assert FramesAt(p, tables) == FramesOf(tables[p]);
  }

  lemma ReleaseFrames(ts: seq<nat>, p: nat, tables: map<nat, Table>)
    requires p in tables && forall q <- ts :: q in tables
    ensures Elems(ts + [p]) == Elems(ts) + {p}
    ensures AllFrames(ts + [p], tables) == AllFrames(ts, tables) + FramesOf(tables[p])
    ensures Elems(AllFrames(ts + [p], tables)) == Elems(AllFrames(ts, tables)) + Elems(FramesOf(tables[p]))
  {
    hide AllFrames, FramesOf;
    assert Elems([p]) == {p};
    ElemsConcat(ts, [p]);
    AllFramesSnoc(ts, p, tables);
    ElemsConcat(AllFrames(ts, tables), FramesOf(tables[p]));
  }

  lemma {:induction false} OwnPrefix(dir: Directory, kernel: Directory, i: nat)
    requires i <= |dir| <= |kernel|
    ensures OwnTables(dir[..i], kernel) <= OwnTables(dir, kernel)
    decreases |dir| - i
  {
    if i == |dir| {
      assert dir[..i] == dir;
    } else {
      OwnTablesNext(dir, kernel, i);
      OwnPrefix(dir, kernel, i + 1);
    }
  }

  /** The clone's own tables and frames are exactly what cloning added. */
  lemma CloneIsOwned(m0: Memory, m: Memory, src: Directory, kernel: Directory, copy: Directory)
    requires Sound(m0) && Sound(m) && Cloned(m0, m, src, kernel, copy)
    ensures var ts := OwnTables(copy, kernel);
            var fs := AllFrames(ts, m.tables);
            && NoDup(ts) && (forall p <- ts :: p in m.tables) && (forall f <- fs :: f < |m.content|)
            && m.tables - Elems(ts) == m0.tables
            && m.taken - Elems(fs) == m0.taken && m.used - |fs| == m0.used
            && Kept(m0.taken, m0.content, m.content)
  {
    hide OwnTables, AllFrames, FramesOf, TableCopy, Kept;
    var ts := OwnTables(copy, kernel);
    NewTablesIn(m0, m, ts);
    assert forall p <- ts :: p !in m0.tables;
    assert forall p <- Elems(ts) :: p in ts;
    assert (m.tables - Elems(ts)).Keys == m0.tables.Keys;
    AllFramesBelow(ts, m.tables, m.taken, |m.content|);
  }

  lemma {:induction false} AllFramesBelow(ts: seq<nat>, tables: map<nat, Table>, taken: set<nat>, n: nat)
    requires forall p <- tables :: MappedIn(tables[p], taken, n)
    ensures forall f <- AllFrames(ts, tables) :: f < n
  {
    if ts != [] {
      AllFramesBelow(ts[..|ts| - 1], tables, taken, n);
      var p := ts[|ts| - 1];
      if p in tables {
        FramesOfTaken(tables[p], taken, n);
      }
    }
  }

  /** The clone shares nothing of its own with any directory that existed before: neither a table
      nor a frame, and that directory's own frames are what they were. */
  lemma CloneUnshared(m0: Memory, m: Memory, src: Directory, kernel: Directory, copy: Directory, other: Directory)
    requires Sound(m0) && Cloned(m0, m, src, kernel, copy) && |other| <= |kernel|
    requires forall p <- OwnTables(other, kernel) :: p in m0.tables
    ensures Elems(OwnTables(copy, kernel)) !! Elems(OwnTables(other, kernel))
    ensures AllFrames(OwnTables(other, kernel), m.tables) == AllFrames(OwnTables(other, kernel), m0.tables)
    ensures Elems(AllFrames(OwnTables(copy, kernel), m.tables)) !! Elems(AllFrames(OwnTables(other, kernel), m.tables))
  {
    hide OwnTables, AllFrames, FramesOf, TableCopy, Kept;
    var ts := OwnTables(other, kernel);
    AllFramesSame(ts, m0.tables, m.tables);
    AllFramesTaken(ts, m0.tables, m0.taken, |m0.content|);
  }

  lemma {:induction false} AllFramesTaken(ts: seq<nat>, tables: map<nat, Table>, taken: set<nat>, n: nat)
    requires forall p <- tables :: MappedIn(tables[p], taken, n)
    ensures Elems(AllFrames(ts, tables)) <= taken
  {
    if ts != [] {
      AllFramesTaken(ts[..|ts| - 1], tables, taken, n);
      var p := ts[|ts| - 1];
      ElemsConcat(AllFrames(ts[..|ts| - 1], tables), FramesAt(p, tables));
      if p in tables {
        FramesOfTaken(tables[p], taken, n);
      }
    }
  }
}

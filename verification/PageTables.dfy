/** Page tables and directories as values: the frames they map, and what it means for one to be a
    private copy of another. */
module PageTables {
  import opened CInt
  import opened Seqs

  const ENTRIES := 1024

  datatype Page = Page(present: bool, rw: bool, user: bool, accessed: bool, dirty: bool, addr: nat)

  const UNMAPPED := Page(false, false, false, false, false, 0)

  type Table = seq<Page>
  type Directory = seq<nat>
  type Bytes = seq<Byte>

  /** The frames a table maps, in entry order; address 0 means unmapped. */
  function FramesOf(t: Table): seq<nat> {
    if t == [] then []
    else
      var n := |t| - 1;
      FramesOf(t[..n]) + (if t[n].addr != 0 then [t[n].addr] else [])
  }

  /** The tables of `d` that are its own: present and not the kernel's at the same index. */
  function OwnTables(d: Directory, kernel: Directory): seq<nat>
    requires |d| <= |kernel|
  {
    if d == [] then []
    else
      var n := |d| - 1;
      OwnTables(d[..n], kernel) + (if d[n] != 0 && d[n] != kernel[n] then [d[n]] else [])
  }

  function FramesAt(p: nat, tables: map<nat, Table>): seq<nat> { if p in tables then FramesOf(tables[p]) else [] }

  /** All frames mapped by a list of tables. */
  function AllFrames(ts: seq<nat>, tables: map<nat, Table>): seq<nat> {
    if ts == [] then [] else AllFrames(ts[..|ts| - 1], tables) + FramesAt(ts[|ts| - 1], tables)
  }

  ghost function Elems(s: seq<nat>): set<nat> { set x | x in s }

  /** A cloned entry: unmapped stays unmapped; a mapped page gets a frame with the same contents
      and the same write, accessed and dirty bits, and is present and user-accessible. */
  ghost predicate EntryCopy(src: Page, copy: Page, before: seq<Bytes>, after: seq<Bytes>) {
    if src.addr == 0 then copy == UNMAPPED
    else
      && copy.present && copy.user && copy.rw == src.rw && copy.accessed == src.accessed && copy.dirty == src.dirty
      && copy.addr != 0 && src.addr < |before| && copy.addr < |after| && after[copy.addr] == before[src.addr]
  }

  ghost predicate TableCopy(src: Table, copy: Table, before: seq<Bytes>, after: seq<Bytes>) {
    |src| == |copy| && forall i :: 0 <= i < |src| ==> EntryCopy(src[i], copy[i], before, after)
  }

  // ---- Sequences without repetition ----

  lemma NoDupConcat(a: seq<nat>, b: seq<nat>)
    requires NoDup(a) && NoDup(b) && Elems(a) !! Elems(b)
    ensures NoDup(a + b)
  {
    assert forall i :: 0 <= i < |a| ==> a[i] in Elems(a);
    assert forall i :: 0 <= i < |b| ==> b[i] in Elems(b);
  }

  lemma ElemsConcat(a: seq<nat>, b: seq<nat>)
    ensures Elems(a + b) == Elems(a) + Elems(b)
  {
  }

  lemma {:induction false} ElemsSize(s: seq<nat>)
    requires NoDup(s)
    ensures |Elems(s)| == |s|
  {
    if s == [] {
      assert Elems(s) == {};
    } else {
      var n := |s| - 1;
      ElemsSize(s[..n]);
      assert s == s[..n] + [s[n]];
      ElemsConcat(s[..n], [s[n]]);
      assert s[n] !in Elems(s[..n]);
      assert Elems([s[n]]) == {s[n]};
    }
  }

  // ---- Frames of prefixes ----

  lemma FramesOfNext(t: Table, i: nat)
    requires i < |t|
    ensures FramesOf(t[..i + 1]) == FramesOf(t[..i]) + (if t[i].addr != 0 then [t[i].addr] else [])
  {
    assert t[..i + 1][..i] == t[..i];
  }

  lemma {:induction false} FramesOfPrefix(t: Table, i: nat)
    requires i <= |t|
    ensures |FramesOf(t[..i])| <= |FramesOf(t)|
    decreases |t| - i
  {
    if i == |t| {
      assert t[..i] == t;
    } else {
      FramesOfNext(t, i);
      FramesOfPrefix(t, i + 1);
    }
  }

  lemma OwnTablesNext(d: Directory, kernel: Directory, i: nat)
    requires i < |d| <= |kernel|
    ensures OwnTables(d[..i + 1], kernel) == OwnTables(d[..i], kernel) + (if d[i] != 0 && d[i] != kernel[i] then [d[i]] else [])
  {
    assert d[..i + 1][..i] == d[..i];
  }

  lemma AllFramesSnoc(ts: seq<nat>, p: nat, tables: map<nat, Table>)
    requires p in tables && forall q <- ts :: q in tables
    ensures AllFrames(ts + [p], tables) == AllFrames(ts, tables) + FramesOf(tables[p])
  {
    assert (ts + [p])[..|ts|] == ts;
  }

  /** Frames depend only on the tables listed. */
  lemma {:induction false} AllFramesSame(ts: seq<nat>, tables: map<nat, Table>, tables': map<nat, Table>)
    requires forall p <- ts :: p in tables && p in tables' && tables[p] == tables'[p]
    ensures AllFrames(ts, tables) == AllFrames(ts, tables')
  {
    if ts != [] {
      AllFramesSame(ts[..|ts| - 1], tables, tables');
    }
  }

  lemma {:induction false} OwnFramesPrefix(d: Directory, kernel: Directory, tables: map<nat, Table>, i: nat)
    requires i < |d| <= |kernel|
    ensures |AllFrames(OwnTables(d[..i], kernel), tables)|
            + (if d[i] != 0 && d[i] != kernel[i] then |FramesAt(d[i], tables)| else 0) <= |AllFrames(OwnTables(d, kernel), tables)|
    decreases |d| - i
  {
    hide FramesAt;
    OwnTablesNext(d, kernel, i);
    var ts, p := OwnTables(d[..i], kernel), d[i];
    if p != 0 && p != kernel[i] {
      assert (ts + [p])[..|ts|] == ts;
      assert AllFrames(ts + [p], tables) == AllFrames(ts, tables) + FramesAt(p, tables);
    } else {
      assert ts + [] == ts;
    }
    if i + 1 < |d| {
      OwnFramesPrefix(d, kernel, tables, i + 1);
    } else {
      assert d[..i + 1] == d;
    }
  }

  lemma {:induction false} FramesSubset(ts: seq<nat>, k: nat, tables: map<nat, Table>)
    requires k < |ts|
    ensures forall f <- FramesAt(ts[k], tables) :: f in AllFrames(ts, tables)
    decreases |ts|
  {
    hide FramesAt;
    var n := |ts| - 1;
    assert AllFrames(ts, tables) == AllFrames(ts[..n], tables) + FramesAt(ts[n], tables);
    if k < n {
      FramesSubset(ts[..n], k, tables);
      assert ts[..n][k] == ts[k];
    }
  }

  lemma {:induction false} FramesOfMember(t: Table, i: nat)
    requires i < |t| && t[i].addr != 0
    ensures t[i].addr in FramesOf(t)
  {
    if i < |t| - 1 {
      FramesOfMember(t[..|t| - 1], i);
    }
  }

  lemma {:induction false} FramesOfIndex(t: Table, f: nat) returns (j: nat)
    requires f in FramesOf(t)
    ensures j < |t| && t[j].addr == f != 0
  {
    var n := |t| - 1;
    if f in FramesOf(t[..n]) {
      j := FramesOfIndex(t[..n], f);
    } else {
      j := n;
    }
  }

  lemma {:induction false} NoFrames(t: Table)
    requires forall i :: 0 <= i < |t| ==> t[i].addr == 0
    ensures FramesOf(t) == []
  {
    if t != [] {
      NoFrames(t[..|t| - 1]);
    }
  }

  lemma {:induction false} FramesOfConcat(a: Table, b: Table)
    ensures FramesOf(a + b) == FramesOf(a) + FramesOf(b)
  {
    if b == [] {
      assert a + b == a && FramesOf(a) + [] == FramesOf(a);
    } else {
      var n := |b| - 1;
      var c := a + b;
      assert c[..|c| - 1] == a + b[..n] && c[|c| - 1] == b[n];
      FramesOfConcat(a, b[..n]);
    }
  }

  function FrameIn(page: Page): seq<nat> { if page.addr != 0 then [page.addr] else [] }

  /** The frames of a table with another entry `j`. */
  lemma {:induction false} FramesOfSplit(t: Table, j: nat, page: Page)
    requires j < |t|
    ensures FramesOf(t[j := page]) == FramesOf(t[..j]) + FrameIn(page) + FramesOf(t[j + 1..])
  {
    hide FramesOf;
    assert t[j := page] == t[..j] + [page] + t[j + 1..];
    FramesOfConcat(t[..j] + [page], t[j + 1..]);
    FramesOfConcat(t[..j], [page]);
    FramesOfOne(page);
  }

  lemma FramesOfOne(page: Page)
    ensures FramesOf([page]) == FrameIn(page)
  {
    assert [page][..0] == [];
    assert FramesOf([]) == [];
  }

  /** Filling an unmapped entry adds its frame. */
  lemma FramesOfFill(t: Table, j: nat, page: Page)
    requires j < |t| && t[j].addr == 0 && page.addr != 0 && page.addr !in FramesOf(t) && NoDup(FramesOf(t))
    ensures NoDup(FramesOf(t[j := page])) && Elems(FramesOf(t[j := page])) == Elems(FramesOf(t)) + {page.addr}
  {
    hide FramesOf;
    assert t[j := t[j]] == t;
    FramesOfSplit(t, j, t[j]);
    FramesOfSplit(t, j, page);
    AroundElems(FramesOf(t[..j]), page.addr, FramesOf(t[j + 1..]));
    AroundAdds(FramesOf(t[..j]), page.addr, FramesOf(t[j + 1..]));
  }

  /** Clearing an entry takes its frame away. */
  lemma FramesOfClear(t: Table, j: nat, page: Page)
    requires j < |t| && t[j].addr != 0 && page.addr == 0 && NoDup(FramesOf(t))
    ensures NoDup(FramesOf(t[j := page])) && Elems(FramesOf(t[j := page])) == Elems(FramesOf(t)) - {t[j].addr}
  {
    hide FramesOf;
    assert t[j := t[j]] == t;
    FramesOfSplit(t, j, t[j]);
    FramesOfSplit(t, j, page);
    AroundElems(FramesOf(t[..j]), t[j].addr, FramesOf(t[j + 1..]));
    AroundDrops(FramesOf(t[..j]), t[j].addr, FramesOf(t[j + 1..]));
  }

  lemma AroundElems(a: seq<nat>, x: nat, b: seq<nat>)
    ensures Elems(a + [x] + b) == Elems(a + [] + b) + {x}
  {
    assert Elems([x]) == {x};
    ElemsConcat(a + [x], b);
    ElemsConcat(a, [x]);
    assert a + [] == a;
    ElemsConcat(a, b);
  }

  lemma AroundAdds(a: seq<nat>, x: nat, b: seq<nat>)
    requires NoDup(a + [] + b) && x !in a + [] + b
    ensures NoDup(a + [x] + b)
  {
    hide NoDup;
    assert a + [] == a;
    NoDupParts(a, b);
    ElemsConcat(a, b);
    ElemsConcat(a, [x]);
    assert Elems([x]) == {x} && x !in Elems(a + b);
    assert NoDup([x]) by { NoDupOne(x); }
    NoDupConcat(a, [x]);
    NoDupConcat(a + [x], b);
  }

  lemma NoDupOne(x: nat)
    ensures NoDup([x])
  {
  }

  lemma AroundDrops(a: seq<nat>, x: nat, b: seq<nat>)
    requires NoDup(a + [x] + b)
    ensures NoDup(a + [] + b) && x !in a + [] + b
  {
    hide NoDup;
    assert a + [] == a;
    NoDupParts(a + [x], b);
    NoDupParts(a, [x]);
    ElemsConcat(a, [x]);
    assert x in Elems([x]) && x !in Elems(a) && x !in Elems(b);
    NoDupConcat(a, b);
  }

  // ---- Frames of several tables ----

  lemma {:induction false} AllFramesFrom(ts: seq<nat>, tables: map<nat, Table>, f: nat) returns (k: nat)
    requires f in AllFrames(ts, tables)
    ensures k < |ts| && f in FramesAt(ts[k], tables)
  {
    hide FramesAt;
    var n := |ts| - 1;
    if f in AllFrames(ts[..n], tables) {
      k := AllFramesFrom(ts[..n], tables, f);
    } else {
      k := n;
    }
  }

  /** In a list of frames without repetition the tables' frames are pairwise apart. */
  lemma {:induction false} AllFramesApart(ts: seq<nat>, tables: map<nat, Table>, i: nat, j: nat)
    requires NoDup(AllFrames(ts, tables)) && i < j < |ts|
    ensures NoDup(FramesAt(ts[i], tables)) && NoDup(FramesAt(ts[j], tables))
    ensures Elems(FramesAt(ts[i], tables)) !! Elems(FramesAt(ts[j], tables))
  {
    hide FramesAt;
    var n := |ts| - 1;
    var a, b := AllFrames(ts[..n], tables), FramesAt(ts[n], tables);
    assert AllFrames(ts, tables) == a + b;
    NoDupParts(a, b);
    assert ts[..n][i] == ts[i];
    if j < n {
      AllFramesApart(ts[..n], tables, i, j);
      assert ts[..n][j] == ts[j];
    } else {
      FramesSubset(ts[..n], i, tables);
      AllFramesNoDupAt(ts[..n], tables, i);
    }
  }

  lemma {:induction false} AllFramesNoDupAt(ts: seq<nat>, tables: map<nat, Table>, i: nat)
    requires NoDup(AllFrames(ts, tables)) && i < |ts|
    ensures NoDup(FramesAt(ts[i], tables))
  {
    hide FramesAt;
    var n := |ts| - 1;
    var a, b := AllFrames(ts[..n], tables), FramesAt(ts[n], tables);
    assert AllFrames(ts, tables) == a + b;
    NoDupParts(a, b);
    if i < n {
      AllFramesNoDupAt(ts[..n], tables, i);
      assert ts[..n][i] == ts[i];
    }
  }

  lemma NoDupParts(a: seq<nat>, b: seq<nat>)
    requires NoDup(a + b)
    ensures NoDup(a) && NoDup(b) && Elems(a) !! Elems(b)
  {
    var c := a + b;
    assert forall i :: 0 <= i < |a| ==> c[i] == a[i];
    assert forall i :: 0 <= i < |b| ==> c[|a| + i] == b[i];
  }

  // ---- Own tables by slot ----

  lemma {:induction false} OwnMember(d: Directory, kernel: Directory, i: nat)
    requires i < |d| <= |kernel| && d[i] != 0 && d[i] != kernel[i]
    ensures d[i] in OwnTables(d, kernel)
  {
    if i < |d| - 1 {
      OwnMember(d[..|d| - 1], kernel, i);
    }
  }

  lemma {:induction false} OwnIndex(d: Directory, kernel: Directory, p: nat) returns (i: nat)
    requires |d| <= |kernel| && p in OwnTables(d, kernel)
    ensures i < |d| && d[i] == p != 0 && p != kernel[i]
  {
    var n := |d| - 1;
    if p in OwnTables(d[..n], kernel) {
      i := OwnIndex(d[..n], kernel, p);
    } else {
      i := n;
    }
  }

  /** An own table listed once stands in one slot. */
  lemma {:induction false} OwnDistinct(d: Directory, kernel: Directory, i: nat, j: nat)
    requires i < j < |d| <= |kernel| && NoDup(OwnTables(d, kernel))
    requires d[i] != 0 && d[i] != kernel[i] && d[j] != kernel[j]
    ensures d[i] != d[j]
  {
    var n := |d| - 1;
    var a, b := OwnTables(d[..n], kernel), (if d[n] != 0 && d[n] != kernel[n] then [d[n]] else []);
    assert OwnTables(d, kernel) == a + b;
    NoDupParts(a, b);
    if j < n {
      OwnDistinct(d[..n], kernel, i, j);
    } else {
      OwnMember(d[..n], kernel, i);
      assert d[..n][i] == d[i];
      assert d[n] != 0 ==> d[n] in Elems(b);
    }
  }
}

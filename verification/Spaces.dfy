/** All address spaces of the machine as one state: which directory owns which table, which table
    maps which frame, and the calls that change this. */
module Spaces {
  import opened Seqs
  import opened PageTables
  import opened FrameGrowth
  import opened CloneProofs
  import opened ForkView

  datatype State = State(mem: Memory, dirs: map<nat, Directory>, kernelPd: nat)

  function KernelDir(s: State): Directory { if s.kernelPd in s.dirs then s.dirs[s.kernelPd] else [] }

  // ---- The invariant ----

  ghost predicate Shaped(s: State) {
    && s.kernelPd in s.dirs && 0 in s.mem.taken
    && (forall p <- s.mem.tables :: |s.mem.tables[p]| == ENTRIES)
    && (forall d <- s.dirs :: 0 < d < s.mem.next && |s.dirs[d]| == ENTRIES && WellFormed(s.dirs[d], s.mem.tables))
  }

  /** No table stands in two slots of one directory. */
  ghost predicate NoRepeat(d: Directory) { forall i, j :: 0 <= i < j < |d| && d[i] != 0 ==> d[i] != d[j] }

  /** Two directories share a table only in the same slot, and only the kernel's. */
  ghost predicate Apart(a: Directory, b: Directory, kernel: Directory) {
    forall i, j :: 0 <= i < |a| && 0 <= j < |b| && a[i] == b[j] && a[i] != 0 ==> i == j && i < |kernel| && a[i] == kernel[i]
  }

  ghost predicate OneOwner(dirs: map<nat, Directory>, kernel: Directory) {
    && (forall d <- dirs :: NoRepeat(dirs[d]))
    && (forall d <- dirs, e <- dirs :: d != e ==> Apart(dirs[d], dirs[e], kernel))
  }

  /** No frame is mapped twice, neither in one table nor in two. */
  ghost predicate OneFrame(tables: map<nat, Table>) {
    && (forall p <- tables :: NoDup(FramesOf(tables[p])))
    && (forall p <- tables, q <- tables :: p != q ==> Elems(FramesOf(tables[p])) !! Elems(FramesOf(tables[q])))
  }

  predicate Holds(dirs: map<nat, Directory>, d: nat, i: nat, p: nat) { d in dirs && i < |dirs[d]| && dirs[d][i] == p }

  /** Every table is in use by some directory. */
  ghost predicate Reached(dirs: map<nat, Directory>, tables: map<nat, Table>) {
    forall p <- tables :: exists d: nat, i: nat :: Holds(dirs, d, i, p)
  }

  ghost predicate Inv(s: State) {
    Shaped(s) && Sound(s.mem) && OneOwner(s.dirs, KernelDir(s)) && OneFrame(s.mem.tables) && Reached(s.dirs, s.mem.tables)
  }

  /** The tables and frames directory `d` has to itself. */
  ghost function Own(s: State, d: nat): seq<nat> {
    if d in s.dirs && |s.dirs[d]| <= |KernelDir(s)| then OwnTables(s.dirs[d], KernelDir(s)) else []
  }

  ghost function OwnFrames(s: State, d: nat): seq<nat> { AllFrames(Own(s, d), s.mem.tables) }

  /** Directory `d` maps frame `f` at some page. */
  ghost predicate Maps(s: State, d: nat, f: nat) {
    d in s.dirs && f != 0 && exists i: nat, j: nat :: Entry(s.dirs[d], s.mem.tables, i, j).addr == f
  }

  // ---- The calls ----

  datatype Call =
    | Clone(src: nat)
    | Map(d: nat, i: nat, j: nat, kernelMode: bool, rw: bool)
    | Unmap(d: nat, i: nat, j: nat)
    | Store(d: nat, i: nat, j: nat, bytes: Bytes)
    | Release(d: nat)

  /** `page_dir_clone` of `src`, under the next free pointer. */
  ghost predicate ClonedTo(s: State, src: nat, t: State) {
    && src in s.dirs && t.kernelPd == s.kernelPd
    && var d := s.mem.next;
       && d in t.dirs && t.dirs == s.dirs[d := t.dirs[d]]
       && Cloned(s.mem.(next := d + 1), t.mem, s.dirs[src], KernelDir(s), t.dirs[d])
  }

  /** `get_page` with `make`: a missing table is created empty, under the next free pointer. */
  function Made(s: State, d: nat, i: nat): State
    requires d in s.dirs && i < |s.dirs[d]|
  {
    if s.dirs[d][i] != 0 then s
    else
      var t := s.mem.next;
      var dir: Directory := s.dirs[d][i := t];
      State(s.mem.(next := t + 1, tables := s.mem.tables[t := seq(ENTRIES, _ => UNMAPPED)]),
            s.dirs[d := dir], s.kernelPd)
  }

  /** A frame entered in entry `j` of table `p`. */
  function Filled(s: State, p: nat, j: nat, page: Page): State
    requires p in s.mem.tables && j < |s.mem.tables[p]|
  {
    s.(mem := s.mem.(taken := s.mem.taken + {page.addr}, used := s.mem.used + 1,
                     tables := s.mem.tables[p := s.mem.tables[p][j := page]]))
  }

  /** `get_page` and `page_map`: any free frame will do. */
  ghost predicate MappedTo(s: State, c: Call, t: State)
    requires c.Map?
  {
    && c.d in s.dirs && c.i < |s.dirs[c.d]|
    && var m := Made(s, c.d, c.i);
       var p := m.dirs[c.d][c.i];
       && p in m.mem.tables && c.j < |m.mem.tables[p]|
       && if m.mem.tables[p][c.j].addr != 0 then t == m
          else
            && c.d in t.dirs
            && var f := Entry(t.dirs[c.d], t.mem.tables, c.i, c.j).addr;
               && f !in s.mem.taken && f < |s.mem.content|
               && t == Filled(m, p, c.j, Page(true, c.rw, !c.kernelMode, false, false, f))
  }

  /** `page_unmap` of a mapped page. */
  function Unmapped(s: State, p: nat, j: nat): State
    requires p in s.mem.tables && j < |s.mem.tables[p]|
  {
    var page := s.mem.tables[p][j];
    s.(mem := s.mem.(taken := s.mem.taken - {page.addr}, used := s.mem.used - 1,
                     tables := s.mem.tables[p := s.mem.tables[p][j := page.(addr := 0)]]))
  }

  /** A page of the process is mapped, so that it can be unmapped or stored to. */
  predicate Present(s: State, d: nat, i: nat, j: nat) {
    && d in s.dirs && i < |s.dirs[d]| && s.dirs[d][i] in s.mem.tables && j < |s.mem.tables[s.dirs[d][i]]|
    && var f := s.mem.tables[s.dirs[d][i]][j].addr; f != 0 && f < |s.mem.content|
  }

  /** `release_directory`. */
  ghost function Released(s: State, d: nat): State {
    State(s.mem.(taken := s.mem.taken - Elems(OwnFrames(s, d)), used := s.mem.used - |OwnFrames(s, d)|,
                 tables := s.mem.tables - Elems(Own(s, d))),
          s.dirs - {d}, s.kernelPd)
  }

  ghost predicate Steps(s: State, c: Call, t: State) {
    match c
    case Clone(src) => ClonedTo(s, src, t)
    case Map(d, i, j, kernelMode, rw) => MappedTo(s, c, t)
    case Unmap(d, i, j) => Present(s, d, i, j) && t == Unmapped(s, s.dirs[d][i], j)
    case Store(d, i, j, bytes) =>
      Present(s, d, i, j)
      && t == s.(mem := s.mem.(content := s.mem.content[s.mem.tables[s.dirs[d][i]][j].addr := bytes]))
    case Release(d) => d in s.dirs && d != s.kernelPd && t == Released(s, d)
  }

  /** At boot: an empty kernel directory over frames of which frame 0 is taken. */
  function Start(taken: set<nat>, used: int, content: seq<Bytes>): State {
    State(Memory(taken, used, map[], 2, content), map[1 := seq(ENTRIES, _ => 0)], 1)
  }

  ghost predicate IsRun(run: seq<State>, calls: seq<Call>) {
    && |run| == |calls| + 1
    && forall i :: 0 <= i < |calls| ==> Steps(run[i], calls[i], run[i + 1])
  }
}

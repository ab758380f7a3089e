/** The kernel's small-block allocator as a state machine: what one allocation and one free do to
    the pages, block headers, class lists and counters, and the invariant both keep. */
module KmallocState {
  import opened Seqs

  const PAGE_SIZE := 4096
  const DESCRIPTOR_SIZE := 16
  const HEADER_SIZE := 12
  const ORDERS := 8
  const MAX_REQUEST := 4068
  const MF_USED := 0xffaa_0055
  const MF_FREE := 0x0055_ffaa
  const BLOCK_MAGIC := 0x3344_5566
  const ADDRESS_LIMIT := 0x1_0000_0000

  /** `vp` is the union field: the request size of a used block, the next free block of a free one. */
  datatype BlockHeader = BlockHeader(flags: nat, magic: nat, vp: nat)
  datatype PageDescriptor = PageDescriptor(next: nat, firstfree: nat, order: int, nfree: int)
  datatype SizeClass = SizeClass(firstfree: nat, nmallocs: int, nfrees: int, nbytes: int, npages: int)

  /** Block size and block count of each class; size 0 ends the table. */
  function BlockSize(o: nat): nat {
    if o == 0 then 32 else if o == 1 then 64 else if o == 2 then 128 else if o == 3 then 252
    else if o == 4 then 508 else if o == 5 then 1020 else if o == 6 then 2040 else if o == 7 then 4080 else 0
  }

  function BlockCount(o: nat): nat {
    if o == 0 then 127 else if o == 1 then 63 else if o == 2 then 31 else if o == 3 then 16
    else if o == 4 then 8 else if o == 5 then 4 else if o == 6 then 2 else if o == 7 then 1 else 0
  }

  /** The page an address lies in: the effect of masking with PAGE_MASK. */
  function PageOf(a: nat): nat { a - a % PAGE_SIZE }

  /** The class of a request: the first, from `o` on, whose block holds it and its header. */
  function OrderFrom(request: nat, o: nat): (r: nat)
    requires request <= MAX_REQUEST && o < ORDERS
    ensures o <= r < ORDERS && request + HEADER_SIZE <= BlockSize(r)
    ensures r > o ==> BlockSize(r - 1) < request + HEADER_SIZE
    decreases ORDERS - o
  {
    if request + HEADER_SIZE <= BlockSize(o) then o else OrderFrom(request, o + 1)
  }

  /** Some class holds a request exactly up to 4068 bytes; above that `get_order` has no result. */
  lemma ClassExists(request: nat)
    ensures (exists o :: 0 <= o < ORDERS && request + HEADER_SIZE <= BlockSize(o)) <==> request <= MAX_REQUEST
  {
    if request <= MAX_REQUEST {
      assert request + HEADER_SIZE <= BlockSize(7);
    }
  }

  type Pages = map<nat, PageDescriptor>
  type Blocks = map<nat, BlockHeader>

  /** The allocator's memory (`pages`, `blocks`), its class table and break, and, beside them, the
      view of it the invariant speaks of: the page each block was carved from (`home`), the live
      blocks with their requests, the free chain of each page and the page list of each class. */
  datatype State = State(
    pages: Pages,
    blocks: Blocks,
    classes: seq<SizeClass>,
    end: nat,
    home: map<nat, nat>,
    live: map<nat, nat>,
    chain: map<nat, seq<nat>>,
    lists: seq<seq<nat>>)

  function First(c: seq<nat>): nat { if c == [] then 0 else c[0] }

  function After(c: seq<nat>, i: nat): nat { if i + 1 < |c| then c[i + 1] else 0 }

  /** Pages are aligned, of a real class and below the break. */
  ghost predicate PagesPlaced(pages: Pages, end: nat) {
    forall pg <- pages :: pg % PAGE_SIZE == 0 && PAGE_SIZE <= pg && pg + PAGE_SIZE <= end && 0 <= pages[pg].order < ORDERS
  }

  /** Blocks lie inside their page, after the descriptor. */
  ghost predicate BlocksPlaced(pages: Pages, blocks: Blocks, home: map<nat, nat>) {
    && home.Keys == blocks.Keys
    && forall a <- blocks :: BlockPlaced(pages, home[a], a) && blocks[a].magic == BLOCK_MAGIC
  }

  ghost predicate BlockPlaced(pages: Pages, pg: nat, a: nat) {
    && pg in pages && 0 <= pages[pg].order
    && pg + DESCRIPTOR_SIZE <= a && a + BlockSize(pages[pg].order) <= pg + PAGE_SIZE
  }

  /** Blocks of a page lie at least a block size apart. */
  ghost predicate Spaced(pages: Pages, home: map<nat, nat>) {
    forall a <- home, b <- home :: a < b && home[a] == home[b] && home[a] in pages && 0 <= pages[home[a]].order
                                   ==> a + BlockSize(pages[home[a]].order) <= b
  }

  /** The chain hanging off a page: acyclic, `nfree` long, of free blocks of that page. */
  ghost predicate ChainOk(pg: nat, d: PageDescriptor, blocks: Blocks, home: map<nat, nat>, c: seq<nat>) {
    && d.firstfree == First(c) && d.nfree == |c| && NoDup(c)
    && forall i :: 0 <= i < |c| ==> c[i] in blocks && c[i] in home && home[c[i]] == pg
                                    && blocks[c[i]].flags == MF_FREE && blocks[c[i]].vp == After(c, i)
  }

  ghost predicate Chains(pages: Pages, blocks: Blocks, home: map<nat, nat>, chain: map<nat, seq<nat>>) {
    && chain.Keys == pages.Keys
    && forall pg <- pages :: ChainOk(pg, pages[pg], blocks, home, chain[pg])
  }

  /** Every carved block is exactly one of live and on its page's chain. */
  ghost predicate Partition(home: map<nat, nat>, live: map<nat, nat>, chain: map<nat, seq<nat>>) {
    && live.Keys <= home.Keys
    && forall a <- home :: home[a] in chain && (a in live <==> a !in chain[home[a]])
  }

  /** A live block is marked used, records its request and is large enough for it. */
  ghost predicate LiveMarked(pages: Pages, blocks: Blocks, home: map<nat, nat>, live: map<nat, nat>) {
    forall a <- live :: a in blocks && a in home && home[a] in pages && 0 <= pages[home[a]].order
                        && blocks[a].flags == MF_USED && blocks[a].vp == live[a]
                        && live[a] + HEADER_SIZE <= BlockSize(pages[home[a]].order)
  }

  ghost predicate ListOk(o: nat, first: nat, pages: Pages, l: seq<nat>) {
    && first == First(l) && NoDup(l)
    && forall i :: 0 <= i < |l| ==> l[i] in pages && pages[l[i]].order == o && pages[l[i]].nfree > 0
                                    && pages[l[i]].next == After(l, i)
  }

  /** Each class list holds only pages of the class with a free block, once each, */
  ghost predicate Lists(pages: Pages, classes: seq<SizeClass>, lists: seq<seq<nat>>) {
    && |classes| == |lists| == ORDERS
    && forall o :: 0 <= o < ORDERS ==> ListOk(o, classes[o].firstfree, pages, lists[o])
  }

  /** and every such page is on its class list; a full page has no successor. */
  ghost predicate Listed(pages: Pages, lists: seq<seq<nat>>) {
    forall pg <- pages :: ListedPage(pg, pages[pg], lists)
  }

  ghost predicate ListedPage(pg: nat, d: PageDescriptor, lists: seq<seq<nat>>) {
    && 0 <= d.order < |lists|
    && (d.nfree > 0 ==> pg in lists[d.order])
    && (d.nfree == 0 ==> d.next == 0)
  }

  /** The live blocks of one class. */
  ghost function LiveOf(pages: Pages, home: map<nat, nat>, live: map<nat, nat>, o: int): map<nat, nat> {
    map a | a in live && a in home && home[a] in pages && pages[home[a]].order == o :: live[a]
  }

  ghost function PagesOf(pages: Pages, o: int): set<nat> { set pg | pg in pages && pages[pg].order == o }

  ghost function Sum(m: map<nat, nat>): nat
    decreases |m|
  {
    if m == map[] then 0 else var k :| k in m; m[k] + Sum(m - {k})
  }

  /** `nmallocs - nfrees` live blocks, `nbytes` requested bytes in them, `npages` pages. */
  ghost predicate CounterOk(pages: Pages, home: map<nat, nat>, live: map<nat, nat>, k: SizeClass, o: int) {
    && k.nmallocs - k.nfrees == |LiveOf(pages, home, live, o)|
    && k.nbytes == Sum(LiveOf(pages, home, live, o))
    && k.npages == |PagesOf(pages, o)|
  }

  ghost predicate Counters(pages: Pages, home: map<nat, nat>, live: map<nat, nat>, classes: seq<SizeClass>) {
    && |classes| == ORDERS
    && forall o :: 0 <= o < ORDERS ==> CounterOk(pages, home, live, classes[o], o)
  }

  ghost predicate Inv(s: State) {
    && s.end >= PAGE_SIZE
    && PagesPlaced(s.pages, s.end)
    && BlocksPlaced(s.pages, s.blocks, s.home)
    && Spaced(s.pages, s.home)
    && Chains(s.pages, s.blocks, s.home, s.chain)
    && Partition(s.home, s.live, s.chain)
    && LiveMarked(s.pages, s.blocks, s.home, s.live)
    && Lists(s.pages, s.classes, s.lists)
    && Listed(s.pages, s.lists)
    && Counters(s.pages, s.home, s.live, s.classes)
  }

  /** Class `o` has a page with a free block at the head of its list. */
  ghost predicate Ready(s: State, o: nat) {
    && o < |s.classes| && o < |s.lists| && s.lists[o] != []
    && var pg := s.lists[o][0];
       && pg in s.pages && pg in s.chain && s.chain[pg] != [] && s.chain[pg][0] in s.blocks
  }

  // ---- The steps ----

  /** Takes the first free block of the first page of class `o`. */
  ghost function Take(s: State, o: nat, size: nat): State
    requires Ready(s, o)
  {
    var pg := s.lists[o][0];
    var d := s.pages[pg];
    var a := s.chain[pg][0];
    var k := s.classes[o];
    s.(blocks := s.blocks[a := s.blocks[a].(flags := MF_USED, vp := size)],
       pages := s.pages[pg := d.(firstfree := s.blocks[a].vp, nfree := d.nfree - 1,
                                 next := if d.nfree == 1 then 0 else d.next)],
       classes := s.classes[o := k.(firstfree := if d.nfree == 1 then d.next else k.firstfree,
                                    nmallocs := k.nmallocs + 1, nbytes := k.nbytes + size)],
       live := s.live[a := size],
       chain := s.chain[pg := s.chain[pg][1..]],
       lists := if d.nfree == 1 then s.lists[o := s.lists[o][1..]] else s.lists)
  }

  /** The page the break yields next. The source always skips a page ahead. */
  function NextPage(end: nat): nat { PageOf(end) + PAGE_SIZE }

  function BlockAddress(pg: nat, o: nat, k: nat): nat { pg + DESCRIPTOR_SIZE + k * BlockSize(o) }

  function FreshChain(pg: nat, o: nat): seq<nat> { seq(BlockCount(o), k requires 0 <= k => BlockAddress(pg, o, k)) }

  ghost function FreshBlocks(pg: nat, o: nat): map<nat, BlockHeader> {
    map a | a in FreshChain(pg, o) ::
      BlockHeader(MF_FREE, BLOCK_MAGIC, if a == BlockAddress(pg, o, BlockCount(o) - 1) then 0 else a + BlockSize(o))
  }

  ghost function FreshHome(pg: nat, o: nat): map<nat, nat> { map a | a in FreshChain(pg, o) :: pg }

  /** Carves a new page of class `o` and puts it first in the class list. */
  ghost function Carve(s: State, o: nat): State
    requires o < |s.classes| && o < |s.lists|
  {
    var pg := NextPage(s.end);
    var k := s.classes[o];
    s.(blocks := s.blocks + FreshBlocks(pg, o),
       pages := s.pages[pg := PageDescriptor(k.firstfree, pg + DESCRIPTOR_SIZE, o, BlockCount(o))],
       classes := s.classes[o := k.(firstfree := pg, npages := k.npages + 1)],
       end := pg + PAGE_SIZE,
       home := s.home + FreshHome(pg, o),
       chain := s.chain[pg := FreshChain(pg, o)],
       lists := s.lists[o := [pg] + s.lists[o]])
  }

  ghost predicate Owned(s: State, a: nat) {
    && a in s.live && a in s.blocks && a in s.home && s.home[a] in s.pages && s.home[a] in s.chain
    && 0 <= s.pages[s.home[a]].order < |s.classes| == |s.lists|
  }

  /** Puts a live block back at the front of its page's chain. */
  ghost function Give(s: State, a: nat): State
    requires Owned(s, a)
  {
    var pg := s.home[a];
    var d := s.pages[pg];
    var k := s.classes[d.order];
    s.(blocks := s.blocks[a := s.blocks[a].(flags := MF_FREE, vp := d.firstfree)],
       pages := s.pages[pg := d.(firstfree := a, nfree := d.nfree + 1,
                                 next := if d.nfree == 0 then k.firstfree else d.next)],
       classes := s.classes[d.order := k.(firstfree := if d.nfree == 0 then pg else k.firstfree,
                                          nfrees := k.nfrees + 1, nbytes := k.nbytes - s.live[a])],
       live := s.live - {a},
       chain := s.chain[pg := [a] + s.chain[pg]],
       lists := if d.nfree == 0 then s.lists[d.order := [pg] + s.lists[d.order]] else s.lists)
  }

  // ---- Sums over the live blocks ----

  lemma {:induction false} SumRemove(m: map<nat, nat>, k: nat)
    requires k in m
    ensures Sum(m) == m[k] + Sum(m - {k})
    decreases |m|
  {
    var j :| j in m && Sum(m) == m[j] + Sum(m - {j});
    if j != k {
      assert |m - {j}| < |m| by { assert (m - {j}).Keys == m.Keys - {j}; }
      SumRemove(m - {j}, k);
      assert m - {j} - {k} == m - {k} - {j};
      assert |m - {k}| < |m| by { assert (m - {k}).Keys == m.Keys - {k}; }
      SumRemove(m - {k}, j);
    }
  }

  lemma SumInsert(m: map<nat, nat>, k: nat, v: nat)
    requires k !in m
    ensures Sum(m[k := v]) == Sum(m) + v && |m[k := v]| == |m| + 1
  {
    SumRemove(m[k := v], k);
    assert m[k := v] - {k} == m;
    assert m[k := v].Keys == m.Keys + {k};
  }
}

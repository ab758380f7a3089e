/** `__kmalloc` and `__kfree` on requests of at most 4068 bytes: the in-place code, proved to take
    the steps of the state machine, and what every run of those steps guarantees its callers. */
module Kmalloc {
  import opened KmallocState
  import opened KmallocProofs

  // ---- Runs ----

  datatype Request = Malloc(size: nat) | Free(header: nat)

  /** The class list is refilled by carving a page when it is empty; the block comes off it. */
  ghost function Refilled(s: State, o: nat): State
    requires o < |s.classes| && o < |s.lists|
  {
    if s.lists[o] == [] then Carve(s, o) else s
  }

  /** Request `r` takes the allocator from `s` to `t`. */
  ghost predicate Steps(s: State, r: Request, t: State) {
    match r
    case Malloc(size) =>
      && size <= MAX_REQUEST && |s.classes| == |s.lists| == ORDERS
      && var o := OrderFrom(size, 0);
         Ready(Refilled(s, o), o) && t == Take(Refilled(s, o), o, size)
    case Free(header) =>
      Owned(s, header) && t == Give(s, header)
  }

  lemma RefilledReady(s: State, o: nat)
    requires Inv(s) && o < ORDERS
    ensures Inv(Refilled(s, o)) && Refilled(s, o).lists[o] != [] && Refilled(s, o).live == s.live
  {
    if s.lists[o] == [] {
      CarveKeepsInv(s, o);
    }
  }

  lemma StepKeepsInv(s: State, r: Request, t: State)
    requires Inv(s) && Steps(s, r, t)
    ensures Inv(t)
  {
    match r
    case Malloc(size) =>
      var o := OrderFrom(size, 0);
      RefilledReady(s, o);
      TakeKeepsInv(Refilled(s, o), o, size);
    case Free(header) =>
      GiveKeepsInv(s, header);
  }

  /** No legal request is ever refused: every size up to the limit, every free of a live block. */
  lemma NeverStuck(s: State, r: Request)
    requires Inv(s) && match r case Malloc(size) => size <= MAX_REQUEST case Free(header) => header in s.live
    ensures exists t :: Steps(s, r, t)
  {
    match r
    case Malloc(size) =>
      var o := OrderFrom(size, 0);
      RefilledReady(s, o);
      TakeKeepsInv(Refilled(s, o), o, size);
      assert Steps(s, r, Take(Refilled(s, o), o, size));
    case Free(header) =>
      GiveKeepsInv(s, header);
      assert Steps(s, r, Give(s, header));
  }

  /** `run` is a sequence of states, each the outcome of the request on the one before. */
  ghost predicate IsRun(run: seq<State>, rs: seq<Request>) {
    && |run| == |rs| + 1
    && forall i :: 0 <= i < |rs| ==> Steps(run[i], rs[i], run[i + 1])
  }

  function NoClass(): SizeClass { SizeClass(0, 0, 0, 0, 0) }

  /** The state `kmalloc_init` leaves. */
  function Start(start: nat): State {
    State(map[], map[], seq(ORDERS, _ => NoClass()), start, map[], map[], map[], seq(ORDERS, _ => []))
  }

  lemma StartInv(start: nat)
    requires start >= PAGE_SIZE
    ensures Inv(Start(start))
  {
    var s := Start(start);
    forall o | 0 <= o < ORDERS
      ensures CounterOk(s.pages, s.home, s.live, s.classes[o], o)
    {
      assert LiveOf(s.pages, s.home, s.live, o) == map[];
      assert PagesOf(s.pages, o) == {};
    }
  }

  /** Every state of every run that starts at `kmalloc_init` satisfies the invariant. */
  lemma {:induction false} RunKeepsInv(run: seq<State>, rs: seq<Request>, start: nat, i: nat)
    requires IsRun(run, rs) && start >= PAGE_SIZE && run[0] == Start(start) && i < |run|
    ensures Inv(run[i])
  {
    hide Inv, Steps, Start;
    if i == 0 {
      StartInv(start);
    } else {
      RunKeepsInv(run, rs, start, i - 1);
      assert Steps(run[i - 1], rs[i - 1], run[i - 1 + 1]);
      StepKeepsInv(run[i - 1], rs[i - 1], run[i]);
    }
  }

  // ---- What the invariant means to a caller ----

  /** The address handed out for a header. */
  function Payload(header: nat): nat { header + HEADER_SIZE }

  /** A live payload lies in one page, past the descriptor, and masking its header finds the page. */
  lemma PayloadInPage(s: State, a: nat)
    requires Inv(s) && a in s.live
    ensures PageOf(a) == s.home[a] && PageOf(a) in s.pages
    ensures PageOf(a) + DESCRIPTOR_SIZE + HEADER_SIZE <= Payload(a)
    ensures Payload(a) + s.live[a] <= PageOf(a) + PAGE_SIZE
  {
    assert BlockPlaced(s.pages, s.home[a], a);
    assert BlockSize(s.pages[s.home[a]].order) >= 12;
    MaskRecovers(s.home[a], a);
  }

  lemma MaskRecovers(pg: nat, a: nat)
    requires pg % PAGE_SIZE == 0 && pg <= a < pg + PAGE_SIZE
    ensures PageOf(a) == pg
  {
  }

  /** Two live payloads never overlap, nor does one overlap another block's header. */
  lemma PayloadsDisjoint(s: State, a: nat, b: nat)
    requires Inv(s) && a in s.live && b in s.blocks && a < b
    ensures Payload(a) + s.live[a] <= b
  {
    BlocksDisjoint(s.pages, s.blocks, s.home, s.end, a, b);
    assert s.live[a] + HEADER_SIZE <= BlockSize(s.pages[s.home[a]].order);
  }

  lemma BlocksDisjoint(pages: Pages, blocks: Blocks, home: map<nat, nat>, end: nat, a: nat, b: nat)
    requires PagesPlaced(pages, end) && BlocksPlaced(pages, blocks, home) && Spaced(pages, home)
    requires a in blocks && b in blocks && a < b
    ensures home[a] in pages && 0 <= pages[home[a]].order && a + BlockSize(pages[home[a]].order) <= b
  {
    assert BlockPlaced(pages, home[a], a) && BlockPlaced(pages, home[b], b);
    if home[a] != home[b] {
      PagesApart(home[a], home[b], a, b);
    }
  }

  lemma PagesApart(p: nat, q: nat, a: nat, b: nat)
    requires p % PAGE_SIZE == 0 && q % PAGE_SIZE == 0 && p != q
    requires p <= a < p + PAGE_SIZE && q <= b < q + PAGE_SIZE && a < b
    ensures p + PAGE_SIZE <= q
  {
  }

  /** Giving back the block just taken restores every descriptor, header, chain and list; only the
      two call counters remember the pair. */
  lemma GiveUndoesTake(s: State, o: nat, size: nat)
    requires Inv(s) && o < ORDERS && o < |s.lists| && s.lists[o] != []
    ensures Taking(s, o)
    ensures var a := s.chain[s.lists[o][0]][0];
            var k := s.classes[o];
            && Owned(Take(s, o, size), a)
            && Give(Take(s, o, size), a) == s.(classes := s.classes[o := k.(nmallocs := k.nmallocs + 1, nfrees := k.nfrees + 1)])
  {
    hide Inv;
    InvTaking(s, o);
    HeadsMatch(s, o);
    UndoMemory(s, o, size);
    UndoTables(s, o, size);
  }

  lemma InvTaking(s: State, o: nat)
    requires Inv(s) && o < ORDERS && s.lists[o] != []
    ensures Taking(s, o)
    ensures s.pages[s.lists[o][0]].nfree == 1 ==> s.chain[s.lists[o][0]][1..] == []
  {
    TakeFacts(s, o);
  }

  lemma UndoMemory(s: State, o: nat, size: nat)
    requires Taking(s, o)
    requires s.pages[s.lists[o][0]].firstfree == s.chain[s.lists[o][0]][0]
    requires s.blocks[s.chain[s.lists[o][0]][0]].flags == MF_FREE
    ensures var a := s.chain[s.lists[o][0]][0];
            && Owned(Take(s, o, size), a)
            && var u := Give(Take(s, o, size), a);
               u.blocks == s.blocks && u.live == s.live && u.chain == s.chain
  {
    var c := s.chain[s.lists[o][0]];
    assert [c[0]] + c[1..] == c;
  }

  lemma UndoTables(s: State, o: nat, size: nat)
    requires Taking(s, o) && Owned(Take(s, o, size), s.chain[s.lists[o][0]][0])
    requires s.pages[s.lists[o][0]].firstfree == s.chain[s.lists[o][0]][0]
    requires s.classes[o].firstfree == s.lists[o][0]
    ensures var a := s.chain[s.lists[o][0]][0];
            var u := Give(Take(s, o, size), a);
            var k := s.classes[o];
            && u.pages == s.pages && u.lists == s.lists && u.end == s.end && u.home == s.home
            && u.classes == s.classes[o := k.(nmallocs := k.nmallocs + 1, nfrees := k.nfrees + 1)]
  {
    var l := s.lists[o];
    assert [l[0]] + l[1..] == l;
  }

  // ---- What one request does ----

  /** Some page of class `o` has a free block. */
  ghost predicate Spare(s: State, o: nat) {
    exists pg <- s.pages :: s.pages[pg].order == o && s.pages[pg].nfree > 0
  }

  lemma SpareIsListed(s: State, o: nat)
    requires Inv(s) && o < ORDERS
    ensures Spare(s, o) <==> s.lists[o] != []
  {
    hide Counters, LiveMarked, Partition, Chains, Spaced, BlocksPlaced;
    if s.lists[o] != [] {
      assert ListOk(o, s.classes[o].firstfree, s.pages, s.lists[o]);
      assert s.lists[o][0] in s.pages;
    }
    if pg :| pg in s.pages && s.pages[pg].order == o && s.pages[pg].nfree > 0 {
      assert ListedPage(pg, s.pages[pg], s.lists);
    }
  }

  /** Block `a` of class `o` was granted for `size` bytes: the smallest class that holds them and the
      header, a block that was not live, and no live block touched. It is a block there was if the class
      had one free; only otherwise is a page added, the whole page after the one the break is in, cut
      into as many blocks as the class has to a page. */
  ghost predicate Granted(s: State, size: nat, t: State, a: nat, o: nat) {
    && size + HEADER_SIZE <= BlockSize(o) && (forall p :: 0 <= p < o ==> BlockSize(p) < size + HEADER_SIZE)
    && a !in s.live && t.live == s.live[a := size]
    && a in t.home && t.home[a] in t.pages && t.pages[t.home[a]].order == o
    && (forall b <- s.live :: b in s.blocks && b in t.blocks && t.blocks[b] == s.blocks[b])
    && (if Spare(s, o) then a in s.home && t.home == s.home && t.pages.Keys == s.pages.Keys && t.end == s.end
        else && t.home[a] == s.end - s.end % 4096 + 4096 && t.end == t.home[a] + 4096
             && t.pages.Keys == s.pages.Keys + {t.home[a]} && t.pages[t.home[a]].nfree == BlockCount(o) - 1)
  }

  ghost predicate Grants(s: State, size: nat, t: State, a: nat) { exists o: nat :: Granted(s, size, t, a, o) }

  lemma SmallestClass(request: nat)
    requires request <= MAX_REQUEST
    ensures forall p :: 0 <= p < OrderFrom(request, 0) ==> BlockSize(p) < request + HEADER_SIZE
  {
  }

  lemma LiveCarved(s: State)
    requires Inv(s)
    ensures forall b <- s.live :: b in s.blocks
  {
    hide Counters, Spaced, Chains, Lists, Listed, LiveMarked;
  }

  lemma TakenBlock(s: State, o: nat, size: nat)
    requires Taking(s, o) && forall b <- s.live :: b in s.blocks
    ensures var a, t := s.chain[s.lists[o][0]][0], Take(s, o, size);
            && a !in s.live && t.live == s.live[a := size] && t.home == s.home && t.end == s.end
            && a in t.home && t.home[a] == s.lists[o][0] && t.pages.Keys == s.pages.Keys && t.pages[t.home[a]].order == o
            && t.pages[t.home[a]].nfree == s.pages[t.home[a]].nfree - 1
            && (forall b <- s.live :: b in t.blocks && t.blocks[b] == s.blocks[b])
  {
  }

  /** The carved page is new and its blocks are; what there was before stays. */
  lemma CarvedPage(s: State, o: nat)
    requires Inv(s) && o < ORDERS
    ensures var pg, t := s.end - s.end % 4096 + 4096, Carve(s, o);
            && pg !in s.pages && t.pages.Keys == s.pages.Keys + {pg} && t.end == pg + 4096
            && t.live == s.live && t.lists[o] == [pg] + s.lists[o]
            && (forall b <- s.live :: b in s.blocks && b in t.blocks && t.blocks[b] == s.blocks[b])
  {
    hide Counters, Spaced, Chains, LiveMarked, FreshChain, FreshBlocks, FreshHome;
    CarveFacts(s, o);
    FreshKeys(NextPage(s.end), o);
  }

  lemma CarvedCount(s: State, o: nat)
    requires o < |s.classes| && o < |s.lists|
    ensures NextPage(s.end) == s.end - s.end % 4096 + 4096
    ensures NextPage(s.end) in Carve(s, o).pages && Carve(s, o).pages[NextPage(s.end)].nfree == BlockCount(o)
  {
  }

  lemma MallocGrants(s: State, size: nat, t: State) returns (a: nat, o: nat)
    requires Inv(s) && Steps(s, Malloc(size), t)
    ensures Granted(s, size, t, a, o)
  {
    hide Inv, Take, Carve, Taking, Spare;
    o := OrderFrom(size, 0);
    SmallestClass(size);
    SpareIsListed(s, o);
    LiveCarved(s);
    RefilledReady(s, o);
    var r := Refilled(s, o);
    LiveCarved(r);
    InvTaking(r, o);
    TakenBlock(r, o, size);
    a := r.chain[r.lists[o][0]][0];
    if s.lists[o] == [] {
      CarvedPage(s, o);
      CarvedCount(s, o);
    }
  }

  lemma GrantedAt(s: State, size: nat, t: State, a: nat)
    requires Inv(s) && Steps(s, Malloc(size), t) && a !in s.live && t.live == s.live[a := size]
    ensures Grants(s, size, t, a)
  {
    hide Inv, Steps, Spare;
    var b, o := MallocGrants(s, size, t);
    assert a in t.live;
  }

  /** Block `h` went back: it alone left the live blocks, its page has it first and one more free block,
      and no other page or header changed. */
  ghost predicate Returned(s: State, h: nat, t: State) {
    && h in s.live && t.live == s.live - {h} && t.home == s.home && t.end == s.end && t.pages.Keys == s.pages.Keys
    && (var pg := h - h % 4096;
        && pg in s.pages && pg in t.pages && t.pages[pg].firstfree == h && t.pages[pg].nfree == s.pages[pg].nfree + 1
        && t.pages[pg].order == s.pages[pg].order
        && forall q <- s.pages :: q != pg ==> q in t.pages && t.pages[q] == s.pages[q])
    && (forall b <- s.blocks :: b != h ==> b in t.blocks && t.blocks[b] == s.blocks[b])
  }

  lemma FreeReturns(s: State, h: nat, t: State)
    requires Inv(s) && Steps(s, Free(h), t)
    ensures Returned(s, h, t)
  {
    hide Inv, BlockSize;
    PayloadInPage(s, h);
  }

  // ---- The code ----

  /** The headers the carving loop has written after `n` of a page's blocks. */
  ghost function Headers(pg: nat, o: nat, n: nat): Blocks
    requires n <= BlockCount(o)
  {
    map a | a in FreshChain(pg, o)[..n] ::
      BlockHeader(MF_FREE, BLOCK_MAGIC, if a == BlockAddress(pg, o, BlockCount(o) - 1) then 0 else a + BlockSize(o))
  }

  lemma HeadersStep(pg: nat, o: nat, n: nat)
    requires o < ORDERS && n < BlockCount(o)
    ensures var vp := if n == BlockCount(o) - 1 then 0 else BlockAddress(pg, o, n + 1);
            Headers(pg, o, n + 1) == Headers(pg, o, n)[BlockAddress(pg, o, n) := BlockHeader(MF_FREE, BLOCK_MAGIC, vp)]
  {
    var c, a := FreshChain(pg, o), BlockAddress(pg, o, n);
    assert c[..n + 1] == c[..n] + [a];
    FreshHeader(pg, o, n);
    assert FreshBlocks(pg, o)[a] == BlockHeader(MF_FREE, BLOCK_MAGIC, After(c, n));
  }

  lemma WriteHeader(pg: nat, o: nat, n: nat, m: Blocks, vp: nat)
    requires o < ORDERS && n < BlockCount(o)
    requires vp == if n == BlockCount(o) - 1 then 0 else BlockAddress(pg, o, n + 1)
    ensures m + Headers(pg, o, n + 1) == (m + Headers(pg, o, n))[BlockAddress(pg, o, n) := BlockHeader(MF_FREE, BLOCK_MAGIC, vp)]
  {
    HeadersStep(pg, o, n);
  }

  lemma HeadersEnds(pg: nat, o: nat)
    ensures Headers(pg, o, 0) == map[] && Headers(pg, o, BlockCount(o)) == FreshBlocks(pg, o)
  {
    assert FreshChain(pg, o)[..BlockCount(o)] == FreshChain(pg, o);
  }

  lemma NextAddress(pg: nat, o: nat, n: nat)
    ensures BlockAddress(pg, o, n + 1) == BlockAddress(pg, o, n) + BlockSize(o)
  {
  }

  ghost predicate Carved(s: State, o: nat, t: State) {
    o < |s.classes| && o < |s.lists| && t == Carve(s, o)
  }

  ghost predicate Taken(s: State, o: nat, size: nat, t: State) {
    Ready(s, o) && t == Take(s, o, size)
  }

  /** An allocation is a refill and a take. */
  lemma MallocSteps(s: State, size: nat, t: State)
    requires Inv(s) && size <= MAX_REQUEST && |s.classes| == |s.lists| == ORDERS
    requires Taken(Refilled(s, OrderFrom(size, 0)), OrderFrom(size, 0), size, t)
    ensures Steps(s, Malloc(size), t)
  {
  }

  class Allocator {
    var pages: Pages
    var blocks: Blocks
    var sizes: seq<SizeClass>
    var kmallocEnd: nat
    ghost var home: map<nat, nat>
    ghost var live: map<nat, nat>
    ghost var chain: map<nat, seq<nat>>
    ghost var lists: seq<seq<nat>>

    ghost function View(): State
      reads this
    {
      State(pages, blocks, sizes, kmallocEnd, home, live, chain, lists)
    }

    ghost predicate Valid()
      reads this
    {
      Inv(View())
    }

    /** `kmalloc_init`. */
    constructor (start: nat)
      requires start >= PAGE_SIZE
      ensures Valid() && View() == Start(start)
    {
      pages, blocks, sizes, kmallocEnd := map[], map[], seq(ORDERS, _ => NoClass()), start;
      home, live, chain, lists := map[], map[], map[], seq(ORDERS, _ => []);
      new;
      StartInv(start);
    }

    /** The least class whose block holds the request and its header. */
    static method GetOrder(request: nat) returns (order: nat)
      requires request <= MAX_REQUEST
      ensures order == OrderFrom(request, 0)
    {
      var size := request + HEADER_SIZE;
      order := 0;
      while BlockSize(order) != 0
        invariant order < ORDERS && OrderFrom(request, 0) == OrderFrom(request, order)
        decreases ORDERS - order
      {
        if size <= BlockSize(order) {
          return;
        }
        order := order + 1;
      }
    }

    /** Fresh, page-aligned and above everything handed out before; a break inside the first page is
        handed out as it is, aligned only if it is 0. */
    method GetFreePage() returns (ret: nat)
      requires kmallocEnd + 2 * PAGE_SIZE < ADDRESS_LIMIT
      modifies `kmallocEnd
      ensures ret == (if PAGE_SIZE <= old(kmallocEnd) then NextPage(old(kmallocEnd)) else old(kmallocEnd))
      ensures kmallocEnd == ret + PAGE_SIZE <= ADDRESS_LIMIT
      ensures PAGE_SIZE <= old(kmallocEnd) ==> old(kmallocEnd) < ret
      ensures ret % PAGE_SIZE == 0 <==> PAGE_SIZE <= old(kmallocEnd) || old(kmallocEnd) == 0
    {
      if PageOf(kmallocEnd) != 0 {
        kmallocEnd := PageOf(kmallocEnd);
        kmallocEnd := kmallocEnd + PAGE_SIZE;
      }
      ret := kmallocEnd;
      kmallocEnd := kmallocEnd + PAGE_SIZE;
    }

    /** Lines 296-304: threads the free chain through the headers of a new page. */
    method ThreadChain(page: nat, order: nat)
      requires order < ORDERS
      modifies `blocks
      ensures blocks == old(blocks) + FreshBlocks(page, order)
    {
      hide Headers, FreshBlocks, FreshChain;
      var sz := BlockSize(order);
      var i, p := BlockCount(order), page + DESCRIPTOR_SIZE;
      HeadersEnds(page, order);
      while i > 1
        invariant 1 <= i <= BlockCount(order)
        invariant p == BlockAddress(page, order, BlockCount(order) - i)
        invariant blocks == old(blocks) + Headers(page, order, BlockCount(order) - i)
      {
        NextAddress(page, order, BlockCount(order) - i);
        WriteHeader(page, order, BlockCount(order) - i, old(blocks), p + sz);
        blocks := blocks[p := BlockHeader(MF_FREE, BLOCK_MAGIC, p + sz)];
        i := i - 1;
        p := blocks[p].vp;
      }
      WriteHeader(page, order, BlockCount(order) - 1, old(blocks), 0);
      blocks := blocks[p := BlockHeader(MF_FREE, BLOCK_MAGIC, 0)];
    }

    /** Lines 285-311. */
    method CarvePage(order: nat)
      requires Valid() && order < ORDERS && kmallocEnd + 2 * PAGE_SIZE < ADDRESS_LIMIT
      modifies this
      ensures Valid() && Carved(old(View()), order, View()) && live == old(live)
    {
      hide Inv, FreshBlocks, FreshChain, FreshHome;
      CarveKeepsInv(View(), order);
      TableSizes(View());
      var page := GetFreePage();
      var k := sizes[order];
      k := k.(npages := k.npages + 1);
      ThreadChain(page, order);
      pages := pages[page := PageDescriptor(k.firstfree, page + DESCRIPTOR_SIZE, order, BlockCount(order))];
      sizes := sizes[order := k.(firstfree := page)];
      home, chain := home + FreshHome(page, order), chain[page := FreshChain(page, order)];
      lists := lists[order := [page] + lists[order]];
      assert View() == Carve(old(View()), order);
    }

    /** Lines 264-278: the block at the head of the head page's chain. */
    method TakeFirst(order: nat, size: nat) returns (p: int)
      requires Valid() && order < ORDERS && order < |lists| && lists[order] != [] && size + HEADER_SIZE <= BlockSize(order)
      modifies this
      ensures Valid() && Taken(old(View()), order, size, View())
      ensures p >= HEADER_SIZE && p - HEADER_SIZE !in old(live) && live == old(live)[p - HEADER_SIZE := size]
    {
      hide Inv;
      TableSizes(View());
      TakeKeepsInv(View(), order, size);
      HeadsMatch(View(), order);
      var k := sizes[order];
      var page := k.firstfree;
      var d := pages[page];
      var b := d.firstfree;
      d := d.(firstfree := blocks[b].vp, nfree := d.nfree - 1);
      ghost var list := lists[order];
      if d.nfree == 0 {
        k := k.(firstfree := d.next);
        d := d.(next := 0);
        list := list[1..];
      }
      k := k.(nmallocs := k.nmallocs + 1, nbytes := k.nbytes + size);
      blocks, pages, sizes := blocks[b := blocks[b].(flags := MF_USED, vp := size)], pages[page := d], sizes[order := k];
      live, chain, lists := live[b := size], chain[page := chain[page][1..]], lists[order := list];
      assert View() == Take(old(View()), order, size);
      p := b + HEADER_SIZE;
    }

    /** The whole small-block path. It never fails, and needs at most two passes of the retry loop. */
    method Kmalloc(size: nat) returns (p: int, ghost passes: nat)
      requires Valid() && size <= MAX_REQUEST && kmallocEnd + 2 * PAGE_SIZE < ADDRESS_LIMIT
      modifies this
      ensures Valid() && Steps(old(View()), Malloc(size), View())
      ensures p >= HEADER_SIZE && p - HEADER_SIZE !in old(live) && live == old(live)[p - HEADER_SIZE := size]
      ensures Grants(old(View()), size, View(), p - HEADER_SIZE)
      ensures 1 <= passes <= 2
    {
      hide Inv, Carve, Take, Steps, Grants;
      var order := GetOrder(size);
      RefilledReady(View(), order);
      TableSizes(View());
      var tries := 3;
      passes := 0;
      while tries > 0
        invariant Valid() && |lists| == |sizes| == ORDERS && 2 <= tries <= 3 && passes == 3 - tries
        invariant tries == 3 ==> View() == old(View()) && kmallocEnd + 2 * PAGE_SIZE < ADDRESS_LIMIT
        invariant tries == 2 ==> View() == Refilled(old(View()), order) && live == old(live) && lists[order] != []
      {
        tries := tries - 1;
        passes := passes + 1;
        HeadOfList(View(), order);
        var page := sizes[order].firstfree;
        if page != 0 && pages[page].firstfree != 0 {
          if blocks[pages[page].firstfree].flags == MF_FREE {
            p := TakeFirst(order, size);
            MallocSteps(old(View()), size, View());
            GrantedAt(old(View()), size, View(), p - HEADER_SIZE);
            return;
          }
          return 0, passes;
        }
        CarvePage(order);
        TableSizes(View());
      }
      return 0, passes;
    }

    /** The small-block path of `kfree`: a null pointer is ignored, a live one goes back on its page. */
    method Kfree(p: nat)
      requires Valid() && (p == 0 || (p >= HEADER_SIZE && p - HEADER_SIZE in live))
      modifies this
      ensures Valid()
      ensures if p == 0 then View() == old(View()) else Steps(old(View()), Free(p - HEADER_SIZE), View())
      ensures p != 0 ==> live == old(live) - {p - HEADER_SIZE} && Returned(old(View()), p - HEADER_SIZE, View())
    {
      hide Inv, Returned;
      if p == 0 {
        return;
      }
      var header := p - HEADER_SIZE;
      GiveKeepsInv(View(), header);
      LiveHeader(View(), header);
      if blocks[header].magic == BLOCK_MAGIC {
        var page := PageOf(header);
        var d := pages[page];
        var order := d.order;
        if order < 0 {
          return;
        }
        var k, h := sizes[order], blocks[header];
        var size := h.vp;
        h := h.(flags := MF_FREE, vp := d.firstfree);
        d := d.(firstfree := header, nfree := d.nfree + 1);
        ghost var list := lists[order];
        if d.nfree == 1 {
          if d.next == 0 {
            d := d.(next := k.firstfree);
            k := k.(firstfree := page);
            list := [page] + list;
          }
        }
        k := k.(nfrees := k.nfrees + 1, nbytes := k.nbytes - size);
        blocks, pages, sizes := blocks[header := h], pages[page := d], sizes[order := k];
        live, chain, lists := live - {header}, chain[page := [header] + chain[page]], lists[order := list];
        assert View() == Give(old(View()), header);
        FreeReturns(old(View()), header, View());
      }
    }
  }

  lemma TableSizes(s: State)
    requires Inv(s)
    ensures |s.classes| == |s.lists| == ORDERS && s.end >= PAGE_SIZE
  {
  }

  /** What `__kfree` reads off a live header. */
  lemma LiveHeader(s: State, a: nat)
    requires Inv(s) && a in s.live
    ensures Owned(s, a) && PageOf(a) == s.home[a] && |s.classes| == ORDERS
    ensures s.blocks[a].magic == BLOCK_MAGIC && s.blocks[a].vp == s.live[a]
    ensures s.pages[s.home[a]].nfree >= 0 && (s.pages[s.home[a]].nfree == 0 ==> s.pages[s.home[a]].next == 0)
  {
    GiveFacts(s, a);
    PayloadInPage(s, a);
    assert ListedPage(s.home[a], s.pages[s.home[a]], s.lists);
  }

  /** The class table and page descriptor point at the heads of the ghost list and chain. */
  lemma HeadsMatch(s: State, o: nat)
    requires Inv(s) && o < ORDERS && s.lists[o] != []
    ensures s.classes[o].firstfree == s.lists[o][0] && s.lists[o][0] in s.pages
    ensures var pg := s.lists[o][0];
            && pg in s.chain && s.chain[pg] != [] && s.pages[pg].firstfree == s.chain[pg][0]
            && s.chain[pg][0] in s.blocks && s.blocks[s.chain[pg][0]].flags == MF_FREE
            && pg != 0 && s.chain[pg][0] != 0
  {
    var pg := s.lists[o][0];
    assert ListOk(o, s.classes[o].firstfree, s.pages, s.lists[o]);
    assert ChainOk(pg, s.pages[pg], s.blocks, s.home, s.chain[pg]);
    assert BlockPlaced(s.pages, pg, s.chain[pg][0]);
  }

  /** The code's test, a page on the list with a block on its chain, asks whether the list is non-empty. */
  lemma HeadOfList(s: State, o: nat)
    requires Inv(s) && o < ORDERS
    ensures var page := s.classes[o].firstfree;
            if s.lists[o] == [] then page == 0
            else page != 0 && page in s.pages && s.pages[page].firstfree != 0
                 && s.pages[page].firstfree in s.blocks && s.blocks[s.pages[page].firstfree].flags == MF_FREE
  {
    assert ListOk(o, s.classes[o].firstfree, s.pages, s.lists[o]);
    if s.lists[o] != [] {
      HeadsMatch(s, o);
    }
  }
}

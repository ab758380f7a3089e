/** The allocator invariant is kept by every step, one conjunct at a time. Taking and giving a
    block both touch one descriptor and one header of one page, so they share these lemmas. */
module KmallocProofs {
  import opened KmallocState
  import opened Seqs

  // ---- Chains ----

  /** A chain only depends on the headers of its own page. */
  lemma ChainFrame(q: nat, d: PageDescriptor, blocks: Blocks, home: map<nat, nat>, a: nat, h: BlockHeader, c: seq<nat>)
    requires ChainOk(q, d, blocks, home, c)
    requires a in home && home[a] != q
    ensures ChainOk(q, d, blocks[a := h], home, c)
  {
  }

  lemma ChainPop(pg: nat, d: PageDescriptor, d': PageDescriptor, blocks: Blocks, home: map<nat, nat>, h: BlockHeader, c: seq<nat>)
    requires ChainOk(pg, d, blocks, home, c) && c != []
    requires d'.firstfree == blocks[c[0]].vp && d'.nfree == d.nfree - 1
    ensures ChainOk(pg, d', blocks[c[0] := h], home, c[1..])
  {
  }

  lemma ChainPush(pg: nat, d: PageDescriptor, d': PageDescriptor, blocks: Blocks, home: map<nat, nat>,
                  a: nat, h: BlockHeader, c: seq<nat>)
    requires ChainOk(pg, d, blocks, home, c) && a !in c
    requires a in blocks && a in home && home[a] == pg
    requires h.flags == MF_FREE && h.vp == d.firstfree
    requires d'.firstfree == a && d'.nfree == d.nfree + 1
    ensures ChainOk(pg, d', blocks[a := h], home, [a] + c)
  {
  }

  lemma ChainsTouch(pages: Pages, blocks: Blocks, home: map<nat, nat>, chain: map<nat, seq<nat>>,
                    a: nat, d: PageDescriptor, h: BlockHeader, c: seq<nat>)
    requires Chains(pages, blocks, home, chain)
    requires a in home && home[a] in pages
    requires ChainOk(home[a], d, blocks[a := h], home, c)
    ensures Chains(pages[home[a] := d], blocks[a := h], home, chain[home[a] := c])
  {
    forall q <- pages | q != home[a]
      ensures ChainOk(q, pages[q], blocks[a := h], home, chain[q])
    {
      ChainFrame(q, pages[q], blocks, home, a, h, chain[q]);
    }
  }

  // ---- Lists ----

  lemma ListPop(o: nat, first: nat, pages: Pages, d: PageDescriptor, l: seq<nat>)
    requires ListOk(o, first, pages, l) && l != []
    ensures ListOk(o, pages[l[0]].next, pages[l[0] := d], l[1..])
  {
  }

  lemma ListPush(o: nat, first: nat, pages: Pages, pg: nat, d: PageDescriptor, l: seq<nat>)
    requires ListOk(o, first, pages, l) && pg !in l
    requires d.order == o && d.nfree > 0 && d.next == first
    ensures ListOk(o, pg, pages[pg := d], [pg] + l)
  {
  }

  /** Changing a page of another class, or a page's chain while it keeps a free block, leaves a list alone. */
  lemma ListTouch(o: nat, first: nat, pages: Pages, pg: nat, d: PageDescriptor, l: seq<nat>)
    requires ListOk(o, first, pages, l)
    requires pg in pages && pages[pg].order == d.order
    requires pg in l ==> d.nfree > 0 && d.next == pages[pg].next
    ensures ListOk(o, first, pages[pg := d], l)
  {
  }

  lemma ListsTouch(pages: Pages, classes: seq<SizeClass>, lists: seq<seq<nat>>, pg: nat, d: PageDescriptor, k: SizeClass, l: seq<nat>)
    requires Lists(pages, classes, lists)
    requires pg in pages && 0 <= d.order == pages[pg].order < ORDERS
    requires ListOk(d.order, k.firstfree, pages[pg := d], l)
    ensures Lists(pages[pg := d], classes[d.order := k], lists[d.order := l])
  {
    var classes', lists' := classes[d.order := k], lists[d.order := l];
    forall o | 0 <= o < ORDERS
      ensures ListOk(o, classes'[o].firstfree, pages[pg := d], lists'[o])
    {
      if o != d.order {
        NotOnOtherList(o, classes[o].firstfree, pages, lists[o], pg);
        ListTouch(o, classes[o].firstfree, pages, pg, d, lists[o]);
      }
    }
  }

  lemma NotOnOtherList(o: nat, first: nat, pages: Pages, l: seq<nat>, pg: nat)
    requires ListOk(o, first, pages, l) && pg in pages && pages[pg].order != o
    ensures pg !in l
  {
  }

  lemma ListedTouch(pages: Pages, lists: seq<seq<nat>>, pg: nat, d: PageDescriptor, l: seq<nat>)
    requires Listed(pages, lists) && pg in pages && 0 <= d.order < |lists|
    requires ListedPage(pg, d, lists[d.order := l])
    requires forall q :: q in lists[d.order] && q != pg ==> q in l
    ensures Listed(pages[pg := d], lists[d.order := l])
  {
    forall q <- pages | q != pg
      ensures ListedPage(q, pages[q], lists[d.order := l])
    {
      assert ListedPage(q, pages[q], lists);
    }
  }

  // ---- Placement and partition ----

  lemma PlacementTouch(pages: Pages, blocks: Blocks, home: map<nat, nat>, end: nat, pg: nat, d: PageDescriptor, a: nat, h: BlockHeader)
    requires PagesPlaced(pages, end) && BlocksPlaced(pages, blocks, home)
    requires pg in pages && d.order == pages[pg].order && a in blocks && h.magic == BLOCK_MAGIC
    ensures PagesPlaced(pages[pg := d], end) && BlocksPlaced(pages[pg := d], blocks[a := h], home)
  {
  }

  lemma SpacedTouch(pages: Pages, home: map<nat, nat>, pg: nat, d: PageDescriptor)
    requires Spaced(pages, home) && pg in pages && d.order == pages[pg].order
    ensures Spaced(pages[pg := d], home)
  {
  }

  lemma PartitionTake(home: map<nat, nat>, live: map<nat, nat>, chain: map<nat, seq<nat>>, pg: nat, size: nat)
    requires Partition(home, live, chain)
    requires pg in chain && chain[pg] != [] && NoDup(chain[pg])
    requires chain[pg][0] in home && home[chain[pg][0]] == pg
    ensures Partition(home, live[chain[pg][0] := size], chain[pg := chain[pg][1..]])
  {
    var c := chain[pg];
    assert forall x :: x in c <==> x == c[0] || x in c[1..];
  }

  lemma PartitionGive(home: map<nat, nat>, live: map<nat, nat>, chain: map<nat, seq<nat>>, a: nat)
    requires Partition(home, live, chain) && a in live
    ensures Partition(home, live - {a}, chain[home[a] := [a] + chain[home[a]]])
  {
    var c := chain[home[a]];
    assert forall x :: x in [a] + c <==> x == a || x in c;
  }

  lemma LiveMarkedTake(pages: Pages, blocks: Blocks, home: map<nat, nat>, live: map<nat, nat>,
                       a: nat, d: PageDescriptor, h: BlockHeader)
    requires LiveMarked(pages, blocks, home, live)
    requires a in home && home[a] in pages && d.order == pages[home[a]].order >= 0
    requires h.flags == MF_USED && h.vp + HEADER_SIZE <= BlockSize(d.order)
    ensures LiveMarked(pages[home[a] := d], blocks[a := h], home, live[a := h.vp])
  {
  }

  lemma LiveMarkedGive(pages: Pages, blocks: Blocks, home: map<nat, nat>, live: map<nat, nat>,
                       a: nat, d: PageDescriptor, h: BlockHeader)
    requires LiveMarked(pages, blocks, home, live)
    requires a in home && home[a] in pages && d.order == pages[home[a]].order >= 0
    ensures LiveMarked(pages[home[a] := d], blocks[a := h], home, live - {a})
  {
  }

  // ---- Counters ----

  /** Away from the class of page `pg`, nothing that happens on the page shows in the counters. */
  lemma CounterFrame(pages: Pages, home: map<nat, nat>, live: map<nat, nat>, pg: nat, d: PageDescriptor,
                     live': map<nat, nat>, k: SizeClass, o: int)
    requires CounterOk(pages, home, live, k, o)
    requires pg in pages && d.order == pages[pg].order != o
    requires forall a <- home :: home[a] != pg ==> (a in live <==> a in live') && (a in live ==> live[a] == live'[a])
    ensures CounterOk(pages[pg := d], home, live', k, o)
  {
    assert PagesOf(pages[pg := d], o) == PagesOf(pages, o);
    assert LiveOf(pages[pg := d], home, live', o) == LiveOf(pages, home, live, o);
  }

  lemma CounterHere(pages: Pages, home: map<nat, nat>, live: map<nat, nat>, pg: nat, d: PageDescriptor, k: SizeClass)
    requires CounterOk(pages, home, live, k, d.order)
    requires pg in pages && d.order == pages[pg].order
    ensures CounterOk(pages[pg := d], home, live, k, d.order)
  {
    assert PagesOf(pages[pg := d], d.order) == PagesOf(pages, d.order);
    assert LiveOf(pages[pg := d], home, live, d.order) == LiveOf(pages, home, live, d.order);
  }

  lemma CountersTouch(pages: Pages, home: map<nat, nat>, live: map<nat, nat>, classes: seq<SizeClass>,
                      pg: nat, d: PageDescriptor, live': map<nat, nat>, k: SizeClass)
    requires Counters(pages, home, live, classes)
    requires pg in pages && 0 <= d.order == pages[pg].order < ORDERS
    requires forall a <- home :: home[a] != pg ==> (a in live <==> a in live') && (a in live ==> live[a] == live'[a])
    requires CounterOk(pages, home, live', k, d.order)
    ensures Counters(pages[pg := d], home, live', classes[d.order := k])
  {
    var classes' := classes[d.order := k];
    forall o | 0 <= o < ORDERS
      ensures CounterOk(pages[pg := d], home, live', classes'[o], o)
    {
      if o == d.order {
        CounterHere(pages, home, live', pg, d, k);
      } else {
        CounterFrame(pages, home, live, pg, d, live', classes[o], o);
      }
    }
  }

  lemma LiveOfTake(pages: Pages, home: map<nat, nat>, live: map<nat, nat>, a: nat, size: nat)
    requires a in home && home[a] in pages && a !in live
    ensures var o := pages[home[a]].order;
            && |LiveOf(pages, home, live[a := size], o)| == |LiveOf(pages, home, live, o)| + 1
            && Sum(LiveOf(pages, home, live[a := size], o)) == Sum(LiveOf(pages, home, live, o)) + size
  {
    var o := pages[home[a]].order;
    assert LiveOf(pages, home, live[a := size], o) == LiveOf(pages, home, live, o)[a := size];
    SumInsert(LiveOf(pages, home, live, o), a, size);
  }

  lemma LiveOfGive(pages: Pages, home: map<nat, nat>, live: map<nat, nat>, a: nat)
    requires a in home && home[a] in pages && a in live
    ensures var o := pages[home[a]].order;
            && |LiveOf(pages, home, live - {a}, o)| == |LiveOf(pages, home, live, o)| - 1
            && Sum(LiveOf(pages, home, live - {a}, o)) == Sum(LiveOf(pages, home, live, o)) - live[a]
  {
    var o := pages[home[a]].order;
    var rest := live - {a};
    LiveOfTake(pages, home, rest, a, live[a]);
    assert rest[a := live[a]] == live;
  }

  // ---- Taking a block ----

  /** What the invariant gives about the block the next `Take` of class `o` returns. */
  ghost predicate Taking(s: State, o: nat) {
    && Ready(s, o) && |s.classes| == |s.lists| == ORDERS
    && var pg := s.lists[o][0];
       var a := s.chain[pg][0];
       && s.pages[pg].order == o && s.pages[pg].nfree == |s.chain[pg]|
       && a in s.home && s.home[a] == pg && a !in s.live
  }

  lemma TakeFacts(s: State, o: nat)
    requires o < ORDERS && Chains(s.pages, s.blocks, s.home, s.chain)
    requires Partition(s.home, s.live, s.chain) && Lists(s.pages, s.classes, s.lists) && s.lists[o] != []
    ensures Taking(s, o)
  {
    var pg := s.lists[o][0];
    assert ListOk(o, s.classes[o].firstfree, s.pages, s.lists[o]);
    assert ChainOk(pg, s.pages[pg], s.blocks, s.home, s.chain[pg]);
    assert s.chain[pg][0] in s.chain[pg];
  }

  lemma TakePlacement(s: State, o: nat, size: nat)
    requires Taking(s, o) && PagesPlaced(s.pages, s.end) && BlocksPlaced(s.pages, s.blocks, s.home) && Spaced(s.pages, s.home)
    ensures var t := Take(s, o, size);
            PagesPlaced(t.pages, t.end) && BlocksPlaced(t.pages, t.blocks, t.home) && Spaced(t.pages, t.home)
  {
    var t, pg := Take(s, o, size), s.lists[o][0];
    var a := s.chain[pg][0];
    PlacementTouch(s.pages, s.blocks, s.home, s.end, pg, t.pages[pg], a, t.blocks[a]);
    SpacedTouch(s.pages, s.home, pg, t.pages[pg]);
  }

  lemma TakeChains(s: State, o: nat, size: nat)
    requires Taking(s, o) && Chains(s.pages, s.blocks, s.home, s.chain) && Partition(s.home, s.live, s.chain)
    ensures var t := Take(s, o, size);
            Chains(t.pages, t.blocks, t.home, t.chain) && Partition(t.home, t.live, t.chain)
  {
    var t, pg := Take(s, o, size), s.lists[o][0];
    var a := s.chain[pg][0];
    assert ChainOk(pg, s.pages[pg], s.blocks, s.home, s.chain[pg]);
    ChainPop(pg, s.pages[pg], t.pages[pg], s.blocks, s.home, t.blocks[a], s.chain[pg]);
    ChainsTouch(s.pages, s.blocks, s.home, s.chain, a, t.pages[pg], t.blocks[a], t.chain[pg]);
    PartitionTake(s.home, s.live, s.chain, pg, size);
  }

  lemma TakeLists(s: State, o: nat, size: nat)
    requires Taking(s, o) && Lists(s.pages, s.classes, s.lists) && Listed(s.pages, s.lists)
    ensures var t := Take(s, o, size);
            Lists(t.pages, t.classes, t.lists) && Listed(t.pages, t.lists)
  {
    var t, pg := Take(s, o, size), s.lists[o][0];
    var d, l := t.pages[pg], s.lists[o];
    assert ListOk(o, s.classes[o].firstfree, s.pages, l);
    if s.pages[pg].nfree == 1 {
      ListPop(o, s.classes[o].firstfree, s.pages, d, l);
      assert l == [pg] + l[1..];
    } else {
      ListTouch(o, s.classes[o].firstfree, s.pages, pg, d, l);
      assert t.lists == s.lists[o := l];
    }
    ListsTouch(s.pages, s.classes, s.lists, pg, d, t.classes[o], t.lists[o]);
    ListedTouch(s.pages, s.lists, pg, d, t.lists[o]);
  }

  lemma TakeCounters(s: State, o: nat, size: nat)
    requires Taking(s, o) && Counters(s.pages, s.home, s.live, s.classes)
    ensures var t := Take(s, o, size); Counters(t.pages, t.home, t.live, t.classes)
  {
    var t, pg := Take(s, o, size), s.lists[o][0];
    var a := s.chain[pg][0];
    assert CounterOk(s.pages, s.home, s.live, s.classes[o], o);
    LiveOfTake(s.pages, s.home, s.live, a, size);
    CountersTouch(s.pages, s.home, s.live, s.classes, pg, t.pages[pg], t.live, t.classes[o]);
  }

  lemma TakeKeepsInv(s: State, o: nat, size: nat)
    requires Inv(s) && o < ORDERS && s.lists[o] != []
    requires size + HEADER_SIZE <= BlockSize(o)
    ensures Taking(s, o) && Inv(Take(s, o, size))
  {
    TakeFacts(s, o);
    TakePlacement(s, o, size);
    TakeChains(s, o, size);
    var t, pg := Take(s, o, size), s.lists[o][0];
    var a := s.chain[pg][0];
    LiveMarkedTake(s.pages, s.blocks, s.home, s.live, a, t.pages[pg], t.blocks[a]);
    TakeLists(s, o, size);
    TakeCounters(s, o, size);
  }

  // ---- Giving a block back ----

  lemma GiveFacts(s: State, a: nat)
    requires a in s.live && Chains(s.pages, s.blocks, s.home, s.chain) && BlocksPlaced(s.pages, s.blocks, s.home)
    requires Partition(s.home, s.live, s.chain) && Lists(s.pages, s.classes, s.lists) && Listed(s.pages, s.lists)
    ensures Owned(s, a) && a !in s.chain[s.home[a]] && |s.classes| == ORDERS
    ensures s.pages[s.home[a]].nfree == |s.chain[s.home[a]]|
  {
    assert ChainOk(s.home[a], s.pages[s.home[a]], s.blocks, s.home, s.chain[s.home[a]]);
    assert ListedPage(s.home[a], s.pages[s.home[a]], s.lists);
  }

  lemma GivePlacement(s: State, a: nat)
    requires Owned(s, a) && PagesPlaced(s.pages, s.end) && BlocksPlaced(s.pages, s.blocks, s.home) && Spaced(s.pages, s.home)
    ensures var t := Give(s, a);
            PagesPlaced(t.pages, t.end) && BlocksPlaced(t.pages, t.blocks, t.home) && Spaced(t.pages, t.home)
  {
    var t, pg := Give(s, a), s.home[a];
    PlacementTouch(s.pages, s.blocks, s.home, s.end, pg, t.pages[pg], a, t.blocks[a]);
    SpacedTouch(s.pages, s.home, pg, t.pages[pg]);
  }

  lemma GiveChains(s: State, a: nat)
    requires Owned(s, a) && a !in s.chain[s.home[a]]
    requires Chains(s.pages, s.blocks, s.home, s.chain) && Partition(s.home, s.live, s.chain)
    ensures var t := Give(s, a);
            Chains(t.pages, t.blocks, t.home, t.chain) && Partition(t.home, t.live, t.chain)
  {
    var t, pg := Give(s, a), s.home[a];
    assert ChainOk(pg, s.pages[pg], s.blocks, s.home, s.chain[pg]);
    ChainPush(pg, s.pages[pg], t.pages[pg], s.blocks, s.home, a, t.blocks[a], s.chain[pg]);
    ChainsTouch(s.pages, s.blocks, s.home, s.chain, a, t.pages[pg], t.blocks[a], t.chain[pg]);
    PartitionGive(s.home, s.live, s.chain, a);
  }

  lemma GiveLists(s: State, a: nat)
    requires Owned(s, a) && s.pages[s.home[a]].nfree >= 0
    requires Lists(s.pages, s.classes, s.lists) && Listed(s.pages, s.lists)
    ensures var t := Give(s, a);
            Lists(t.pages, t.classes, t.lists) && Listed(t.pages, t.lists)
  {
    var t, pg := Give(s, a), s.home[a];
    var d, o := t.pages[pg], s.pages[pg].order;
    var l := s.lists[o];
    assert ListOk(o, s.classes[o].firstfree, s.pages, l);
    assert ListedPage(pg, s.pages[pg], s.lists);
    if s.pages[pg].nfree == 0 {
      ListPush(o, s.classes[o].firstfree, s.pages, pg, d, l);
      assert t.lists[o][0] == pg && t.lists[o][1..] == l;
    } else {
      ListTouch(o, s.classes[o].firstfree, s.pages, pg, d, l);
      assert t.lists == s.lists[o := l];
    }
    ListsTouch(s.pages, s.classes, s.lists, pg, d, t.classes[o], t.lists[o]);
    ListedTouch(s.pages, s.lists, pg, d, t.lists[o]);
  }

  lemma GiveCounters(s: State, a: nat)
    requires Owned(s, a) && |s.classes| == ORDERS && Counters(s.pages, s.home, s.live, s.classes)
    ensures var t := Give(s, a); Counters(t.pages, t.home, t.live, t.classes)
  {
    var t, pg := Give(s, a), s.home[a];
    var o := s.pages[pg].order;
    assert CounterOk(s.pages, s.home, s.live, s.classes[o], o);
    LiveOfGive(s.pages, s.home, s.live, a);
    CountersTouch(s.pages, s.home, s.live, s.classes, pg, t.pages[pg], t.live, t.classes[o]);
  }

  lemma GiveKeepsInv(s: State, a: nat)
    requires Inv(s) && a in s.live
    ensures Owned(s, a) && Inv(Give(s, a))
  {
    GiveFacts(s, a);
    GivePlacement(s, a);
    GiveChains(s, a);
    var t, pg := Give(s, a), s.home[a];
    LiveMarkedGive(s.pages, s.blocks, s.home, s.live, a, t.pages[pg], t.blocks[a]);
    GiveLists(s, a);
    GiveCounters(s, a);
  }

  // ---- Carving a page ----

  lemma NextPageFresh(end: nat)
    ensures NextPage(end) % PAGE_SIZE == 0 && end < NextPage(end) && PAGE_SIZE <= NextPage(end)
  {
  }

  lemma MulLe(a: nat, b: nat, x: nat)
    requires a <= b
    ensures a * x <= b * x
  {
  }

  /** A page of each class is full: one more block would not fit after its descriptor. */
  lemma PageIsFull(o: nat)
    requires o < ORDERS
    ensures DESCRIPTOR_SIZE + BlockCount(o) * BlockSize(o) <= PAGE_SIZE < DESCRIPTOR_SIZE + (BlockCount(o) + 1) * BlockSize(o)
  {
  }

  /** The blocks of a class fit its page, and lie a block size apart. */
  lemma BlocksFit(pg: nat, o: nat, k: nat)
    requires o < ORDERS && k < BlockCount(o)
    ensures pg + DESCRIPTOR_SIZE <= BlockAddress(pg, o, k)
    ensures BlockAddress(pg, o, k) + BlockSize(o) <= pg + PAGE_SIZE
  {
    MulLe(k + 1, BlockCount(o), BlockSize(o));
  }

  lemma BlocksSpaced(pg: nat, o: nat, j: nat, k: nat)
    requires o < ORDERS && j < k
    ensures BlockAddress(pg, o, j) + BlockSize(o) <= BlockAddress(pg, o, k)
  {
    MulLe(j + 1, k, BlockSize(o));
  }

  lemma FreshHeader(pg: nat, o: nat, i: nat)
    requires o < ORDERS && i < BlockCount(o)
    ensures var c := FreshChain(pg, o);
            c[i] in FreshBlocks(pg, o) && FreshBlocks(pg, o)[c[i]] == BlockHeader(MF_FREE, BLOCK_MAGIC, After(c, i))
  {
    var c := FreshChain(pg, o);
    assert c[i] in c && c[i] == BlockAddress(pg, o, i);
    if i + 1 < BlockCount(o) {
      BlocksSpaced(pg, o, i, BlockCount(o) - 1);
      assert c[i + 1] == BlockAddress(pg, o, i + 1) == c[i] + BlockSize(o);
    }
  }

  lemma FreshChainDistinct(pg: nat, o: nat)
    requires o < ORDERS
    ensures NoDup(FreshChain(pg, o))
  {
    var c := FreshChain(pg, o);
    forall i, j | 0 <= i < j < |c|
      ensures c[i] != c[j]
    {
      BlocksSpaced(pg, o, i, j);
    }
  }

  /** The header loop's links make the fresh chain: each header points a block size on, the last nowhere. */
  lemma FreshChainOk(pg: nat, o: nat, d: PageDescriptor, blocks: Blocks, home: map<nat, nat>)
    requires o < ORDERS && d.firstfree == pg + DESCRIPTOR_SIZE && d.nfree == BlockCount(o)
    requires forall a <- FreshChain(pg, o) :: a in blocks && blocks[a] == FreshBlocks(pg, o)[a] && a in home && home[a] == pg
    ensures ChainOk(pg, d, blocks, home, FreshChain(pg, o))
  {
    var c := FreshChain(pg, o);
    FreshChainDistinct(pg, o);
    forall i | 0 <= i < |c|
      ensures c[i] in c && FreshBlocks(pg, o)[c[i]] == BlockHeader(MF_FREE, BLOCK_MAGIC, After(c, i))
    {
      FreshHeader(pg, o, i);
    }
  }

  ghost predicate Extends<T(!new)>(m: map<nat, T>, m': map<nat, T>) {
    forall a <- m :: a in m' && m'[a] == m[a]
  }

  lemma ChainsAdd(pages: Pages, blocks: Blocks, home: map<nat, nat>, chain: map<nat, seq<nat>>,
                  blocks': Blocks, home': map<nat, nat>, pg: nat, d: PageDescriptor, c: seq<nat>)
    requires Chains(pages, blocks, home, chain) && Extends(blocks, blocks') && Extends(home, home')
    requires pg !in pages && ChainOk(pg, d, blocks', home', c)
    ensures Chains(pages[pg := d], blocks', home', chain[pg := c])
  {
    forall q <- pages
      ensures ChainOk(q, pages[q], blocks', home', chain[q])
    {
      assert ChainOk(q, pages[q], blocks, home, chain[q]);
    }
  }

  lemma LiveOfAdd(pages: Pages, home: map<nat, nat>, live: map<nat, nat>, home': map<nat, nat>, pg: nat, d: PageDescriptor, r: int)
    requires Extends(home, home') && pg !in pages && forall a <- live :: a in home && home[a] in pages
    ensures LiveOf(pages[pg := d], home', live, r) == LiveOf(pages, home, live, r)
  {
  }

  lemma PagesOfAdd(pages: Pages, pg: nat, d: PageDescriptor, r: int)
    requires pg !in pages
    ensures |PagesOf(pages[pg := d], r)| == |PagesOf(pages, r)| + (if r == d.order then 1 else 0)
  {
    if r == d.order {
      assert PagesOf(pages[pg := d], r) == PagesOf(pages, r) + {pg};
    } else {
      assert PagesOf(pages[pg := d], r) == PagesOf(pages, r);
    }
  }

  lemma CounterAdd(pages: Pages, home: map<nat, nat>, live: map<nat, nat>, home': map<nat, nat>, k: SizeClass,
                   pg: nat, d: PageDescriptor, r: int)
    requires CounterOk(pages, home, live, k, r) && Extends(home, home') && pg !in pages
    requires forall a <- live :: a in home && home[a] in pages
    ensures CounterOk(pages[pg := d], home', live, if r == d.order then k.(npages := k.npages + 1) else k, r)
  {
    LiveOfAdd(pages, home, live, home', pg, d, r);
    PagesOfAdd(pages, pg, d, r);
  }

  lemma FreshMember(pg: nat, o: nat, a: nat) returns (k: nat)
    requires o < ORDERS && a in FreshChain(pg, o)
    ensures k < BlockCount(o) && a == BlockAddress(pg, o, k)
    ensures a in FreshBlocks(pg, o) && FreshBlocks(pg, o)[a].magic == BLOCK_MAGIC
    ensures a in FreshHome(pg, o) && FreshHome(pg, o)[a] == pg
  {
    k :| 0 <= k < BlockCount(o) && a == BlockAddress(pg, o, k);
  }

  lemma FreshKeys(pg: nat, o: nat)
    ensures FreshBlocks(pg, o).Keys == FreshHome(pg, o).Keys
    ensures forall a :: a in FreshChain(pg, o) <==> a in FreshBlocks(pg, o)
    ensures forall a <- FreshHome(pg, o) :: FreshHome(pg, o)[a] == pg
  {
  }

  /** Where the new page and its blocks lie relative to everything already carved. */
  ghost predicate Carving(s: State, o: nat) {
    && o < ORDERS && |s.classes| == |s.lists| == ORDERS
    && var pg := NextPage(s.end);
       && pg !in s.pages
       && (forall a <- FreshChain(pg, o) :: a !in s.home && a !in s.blocks && a !in s.live)
  }

  lemma CarveFacts(s: State, o: nat)
    requires o < ORDERS && |s.classes| == |s.lists| == ORDERS
    requires PagesPlaced(s.pages, s.end) && BlocksPlaced(s.pages, s.blocks, s.home) && Partition(s.home, s.live, s.chain)
    ensures Carving(s, o)
  {
    var pg := NextPage(s.end);
    NextPageFresh(s.end);
    forall a <- FreshChain(pg, o)
      ensures a !in s.blocks
    {
      var k :| 0 <= k < BlockCount(o) && a == BlockAddress(pg, o, k);
      BlocksFit(pg, o, k);
    }
  }

  lemma CarvePlacement(s: State, o: nat)
    requires Carving(s, o) && PagesPlaced(s.pages, s.end) && BlocksPlaced(s.pages, s.blocks, s.home)
    ensures var t := Carve(s, o); PagesPlaced(t.pages, t.end) && BlocksPlaced(t.pages, t.blocks, t.home)
  {
    hide NextPage, BlockAddress, FreshChain, FreshBlocks, FreshHome;
    FreshKeys(NextPage(s.end), o);
    var t, pg := Carve(s, o), NextPage(s.end);
    NextPageFresh(s.end);
    forall a <- t.blocks
      ensures BlockPlaced(t.pages, t.home[a], a) && t.blocks[a].magic == BLOCK_MAGIC
    {
      if a in FreshChain(pg, o) {
        var k := FreshMember(pg, o, a);
        BlocksFit(pg, o, k);
      } else {
        assert BlockPlaced(s.pages, s.home[a], a);
      }
    }
  }

  lemma CarveSpaced(s: State, o: nat)
    requires Carving(s, o) && Spaced(s.pages, s.home) && BlocksPlaced(s.pages, s.blocks, s.home)
    ensures var t := Carve(s, o); Spaced(t.pages, t.home)
  {
    hide NextPage, BlockAddress, FreshChain, FreshBlocks, FreshHome;
    FreshKeys(NextPage(s.end), o);
    var t, pg := Carve(s, o), NextPage(s.end);
    forall a <- t.home, b <- t.home | a < b && t.home[a] == t.home[b] && t.home[a] in t.pages && 0 <= t.pages[t.home[a]].order
      ensures a + BlockSize(t.pages[t.home[a]].order) <= b
    {
      if t.home[a] == pg {
        HomeIsFresh(s, o, a);
        HomeIsFresh(s, o, b);
        var j := FreshMember(pg, o, a);
        var k := FreshMember(pg, o, b);
        if k < j {
          BlocksSpaced(pg, o, k, j);
        } else {
          BlocksSpaced(pg, o, j, k);
        }
      }
    }
  }

  lemma HomeIsFresh(s: State, o: nat, a: nat)
    requires Carving(s, o) && BlocksPlaced(s.pages, s.blocks, s.home)
    requires a in Carve(s, o).home && Carve(s, o).home[a] == NextPage(s.end)
    ensures a in FreshChain(NextPage(s.end), o)
  {
  }

  lemma CarveExtends(s: State, o: nat)
    requires Carving(s, o)
    ensures var t := Carve(s, o); Extends(s.blocks, t.blocks) && Extends(s.home, t.home)
  {
  }

  lemma CarveChains(s: State, o: nat)
    requires Carving(s, o) && Chains(s.pages, s.blocks, s.home, s.chain)
    ensures var t := Carve(s, o); Chains(t.pages, t.blocks, t.home, t.chain)
  {
    var t, pg := Carve(s, o), NextPage(s.end);
    CarveExtends(s, o);
    FreshChainOk(pg, o, t.pages[pg], t.blocks, t.home);
    ChainsAdd(s.pages, s.blocks, s.home, s.chain, t.blocks, t.home, pg, t.pages[pg], FreshChain(pg, o));
  }

  lemma CarvePartition(s: State, o: nat)
    requires Carving(s, o) && Partition(s.home, s.live, s.chain)
    requires s.chain.Keys == s.pages.Keys && LiveMarked(s.pages, s.blocks, s.home, s.live)
    ensures var t := Carve(s, o); Partition(t.home, t.live, t.chain) && LiveMarked(t.pages, t.blocks, t.home, t.live)
  {
  }

  lemma CarveLists(s: State, o: nat)
    requires Carving(s, o) && Lists(s.pages, s.classes, s.lists) && Listed(s.pages, s.lists)
    ensures var t := Carve(s, o); Lists(t.pages, t.classes, t.lists) && Listed(t.pages, t.lists)
  {
    var t, pg := Carve(s, o), NextPage(s.end);
    forall r | 0 <= r < ORDERS
      ensures ListOk(r, t.classes[r].firstfree, t.pages, t.lists[r])
    {
      assert ListOk(r, s.classes[r].firstfree, s.pages, s.lists[r]);
      if r == o {
        ListPush(o, s.classes[o].firstfree, s.pages, pg, t.pages[pg], s.lists[o]);
      }
    }
    assert t.lists[o][0] == pg && t.lists[o][1..] == s.lists[o];
    forall q <- t.pages
      ensures ListedPage(q, t.pages[q], t.lists)
    {
      if q != pg {
        assert ListedPage(q, s.pages[q], s.lists);
      }
    }
  }

  lemma CarveCounters(s: State, o: nat)
    requires Carving(s, o) && Counters(s.pages, s.home, s.live, s.classes)
    requires LiveMarked(s.pages, s.blocks, s.home, s.live)
    ensures var t := Carve(s, o); Counters(t.pages, t.home, t.live, t.classes)
  {
    hide FreshChain, FreshBlocks, FreshHome, NextPage, LiveOf, PagesOf, Sum;
    var t, pg := Carve(s, o), NextPage(s.end);
    CarveExtends(s, o);
    forall r | 0 <= r < ORDERS
      ensures CounterOk(t.pages, t.home, t.live, t.classes[r], r)
    {
      assert CounterOk(s.pages, s.home, s.live, s.classes[r], r);
      CounterAdd(s.pages, s.home, s.live, t.home, s.classes[r], pg, t.pages[pg], r);
    }
  }

  lemma CarveKeepsInv(s: State, o: nat)
    requires Inv(s) && o < ORDERS
    ensures Inv(Carve(s, o)) && Carve(s, o).lists[o] != []
  {
    CarveFacts(s, o);
    NextPageFresh(s.end);
    CarvePlacement(s, o);
    CarveSpaced(s, o);
    CarveChains(s, o);
    CarvePartition(s, o);
    CarveLists(s, o);
    CarveCounters(s, o);
  }
}

/** The user-space heap: a first-fit chain of blocks, each a header and its payload, grown by `sbrk`. */
module UserHeap {
  import opened CInt
  import opened Seqs

  const META_SIZE := 16
  const ADDRESS_LIMIT := 0x1_0000_0000
  const MAGIC := 0x3412_7856

  /** The header in front of a payload; `next` 0 is null. */
  datatype Meta = Meta(size: nat, free: bool, magic: nat, next: nat)

  datatype Block = Block(addr: nat, size: nat, free: bool)

  /** The blocks cover [start, brk) in address order with no gap and no overlap. */
  predicate Tiles(bs: seq<Block>, start: nat, brk: nat) {
    && (if bs == [] then start == brk else bs[0].addr == start && End(bs[|bs| - 1]) == brk)
    && (forall i :: 0 <= i < |bs| - 1 ==> End(bs[i]) == bs[i + 1].addr)
  }

  function End(b: Block): nat { b.addr + META_SIZE + b.size }

  function Payload(b: Block): nat { b.addr + META_SIZE }

  predicate Fit(b: Block, size: nat) { b.free && b.size >= size }

  /** Index of the first block that fits, or the length. */
  function FirstFit(bs: seq<Block>, size: nat): (k: nat)
    ensures k <= |bs| && (k < |bs| ==> Fit(bs[k], size)) && forall i :: 0 <= i < k ==> !Fit(bs[i], size)
  {
    if bs == [] || Fit(bs[0], size) then 0 else 1 + FirstFit(bs[1..], size)
  }

  /** What `malloc` of a non-zero size does: the lowest fitting block is reused whole, and only
      when there is none does the heap grow. */
  function Malloced(bs: seq<Block>, brk: nat, size: nat): seq<Block> {
    var k := FirstFit(bs, size);
    if k < |bs| then bs[k := bs[k].(free := false)] else bs + [Block(brk, size, false)]
  }

  /** `sbrk` through `sys_brk`, in 32-bit arithmetic: a break that would move down stays. */
  function Sbrk(brk: nat, increment: nat): nat {
    var target := (brk + increment) % ADDRESS_LIMIT;
    if target < brk then brk else target
  }

  // ---- Tilings ----

  lemma {:induction false} TilesApart(bs: seq<Block>, start: nat, brk: nat, i: nat, j: nat)
    requires Tiles(bs, start, brk) && i < j < |bs|
    ensures End(bs[i]) <= bs[j].addr
    decreases j
  {
    if i < j - 1 {
      TilesApart(bs, start, brk, i, j - 1);
    }
  }

  /** Distinct payloads never overlap, and a payload never overlaps another block's header. */
  lemma PayloadsDisjoint(bs: seq<Block>, start: nat, brk: nat, i: nat, j: nat)
    requires Tiles(bs, start, brk) && i < |bs| && j < |bs| && i != j
    ensures Payload(bs[i]) + bs[i].size <= bs[j].addr || End(bs[j]) <= bs[i].addr
  {
    if i < j {
      TilesApart(bs, start, brk, i, j);
    } else {
      TilesApart(bs, start, brk, j, i);
    }
  }

  lemma {:induction false} TilesInside(bs: seq<Block>, start: nat, brk: nat, i: nat)
    requires Tiles(bs, start, brk) && i < |bs|
    ensures start <= bs[i].addr && End(bs[i]) <= brk
  {
    if i > 0 {
      TilesApart(bs, start, brk, 0, i);
    }
    if i < |bs| - 1 {
      TilesApart(bs, start, brk, i, |bs| - 1);
    }
  }

  /** The block chosen is free and large enough, and lies below every other block that is. */
  lemma LowestFit(bs: seq<Block>, start: nat, brk: nat, size: nat, j: nat)
    requires Tiles(bs, start, brk) && j < |bs| && bs[j].free && bs[j].size >= size
    ensures FirstFit(bs, size) < |bs| && bs[FirstFit(bs, size)].addr <= bs[j].addr
    ensures bs[FirstFit(bs, size)].free && bs[FirstFit(bs, size)].size >= size
  {
    if FirstFit(bs, size) < j {
      TilesApart(bs, start, brk, FirstFit(bs, size), j);
    }
  }

  /** What a caller of `malloc` gets on the blocks `bs`: never a live block; a free block that is large
      enough if there is one, and the lowest such; otherwise a new block at the break. */
  ghost predicate Answers(bs: seq<Block>, brk: nat, size: nat, ptr: nat) {
    && (forall i :: 0 <= i < |bs| && !bs[i].free ==> ptr != Payload(bs[i]))
    && (forall j :: 0 <= j < |bs| && bs[j].free && bs[j].size >= size ==>
          exists i :: 0 <= i < |bs| && ptr == Payload(bs[i]) && bs[i].free && bs[i].size >= size && bs[i].addr <= bs[j].addr)
    && ((forall j :: 0 <= j < |bs| ==> !(bs[j].free && bs[j].size >= size)) ==> ptr == brk + META_SIZE)
  }

  /** What becomes of the blocks: the one at `ptr` is live, a new one comes last, no other changes. */
  ghost predicate OnlyTaken(bs: seq<Block>, after: seq<Block>, brk: nat, size: nat, ptr: nat) {
    && |bs| <= |after| <= |bs| + 1
    && (forall i :: 0 <= i < |bs| ==> after[i] == if ptr == Payload(bs[i]) then Block(bs[i].addr, bs[i].size, false) else bs[i])
    && (|after| == |bs| + 1 ==> after[|bs|] == Block(brk, size, false) && ptr == brk + META_SIZE)
    && (|after| == |bs| ==> exists i :: 0 <= i < |bs| && ptr == Payload(bs[i]))
  }

  lemma MallocAnswers(bs: seq<Block>, start: nat, brk: nat, size: nat)
    requires Tiles(bs, start, brk)
    ensures var ms, k := Malloced(bs, brk, size), FirstFit(bs, size);
            k < |ms| && Answers(bs, brk, size, Payload(ms[k])) && OnlyTaken(bs, ms, brk, size, Payload(ms[k]))
  {
    hide FirstFit, Tiles;
    var ms, k := Malloced(bs, brk, size), FirstFit(bs, size);
    var ptr := Payload(ms[k]);
    forall i | 0 <= i < |bs|
      ensures i != k ==> ptr != Payload(bs[i])
    {
      TilesInside(bs, start, brk, i);
      if k < |bs| && i != k { PayloadsDisjoint(bs, start, brk, i, k); }
    }
    forall j | 0 <= j < |bs| && bs[j].free && bs[j].size >= size
      ensures k < |bs| && bs[k].free && bs[k].size >= size && bs[k].addr <= bs[j].addr
    {
      LowestFit(bs, start, brk, size, j);
    }
  }

  /** After `malloc` the blocks tile the heap exactly when a fitting block was reused or the new
      break stays below 2^32: otherwise the header of the new block lies outside the heap. */
  lemma MallocTiles(bs: seq<Block>, start: nat, brk: nat, size: nat)
    requires Tiles(bs, start, brk) && brk < ADDRESS_LIMIT && size < ADDRESS_LIMIT
    ensures var brk' := if FirstFit(bs, size) < |bs| then brk else Sbrk(brk, size + META_SIZE);
            Tiles(Malloced(bs, brk, size), start, brk') <==> FirstFit(bs, size) < |bs| || brk + size + META_SIZE < ADDRESS_LIMIT
  {
    var k, t := FirstFit(bs, size), Malloced(bs, brk, size);
    if k < |bs| {
      assert forall i :: 0 <= i < |bs| ==> t[i].addr == bs[i].addr && t[i].size == bs[i].size;
    } else {
      assert End(t[|t| - 1]) == brk + META_SIZE + size;
      assert forall i :: 0 <= i < |bs| ==> t[i] == bs[i];
      if brk + size + META_SIZE >= ADDRESS_LIMIT {
        assert Sbrk(brk, size + META_SIZE) < ADDRESS_LIMIT;
      }
    }
  }

  // ---- The code ----

  function After(c: seq<nat>, i: nat): nat { if i + 1 < |c| then c[i + 1] else 0 }

  function BlockAt(metas: map<nat, Meta>, a: nat): Block {
    if a in metas then Block(a, metas[a].size, metas[a].free) else Block(a, 0, false)
  }

  ghost function BlocksOf(metas: map<nat, Meta>, chain: seq<nat>): seq<Block> {
    seq(|chain|, i requires 0 <= i < |chain| => BlockAt(metas, chain[i]))
  }

  predicate LinkAt(metas: map<nat, Meta>, chain: seq<nat>, i: nat)
    requires i < |chain|
  {
    0 < chain[i] && chain[i] in metas && metas[chain[i]].next == After(chain, i)
  }

  /** The headers reachable from the base, in order. */
  ghost predicate Chained(base: nat, metas: map<nat, Meta>, chain: seq<nat>) {
    && base == (if chain == [] then 0 else chain[0])
    && (forall i :: 0 <= i < |chain| ==> LinkAt(metas, chain, i))
    && NoDup(chain)
    && (forall a <- metas :: a in chain)
  }

  lemma ReflagChained(base: nat, metas: map<nat, Meta>, chain: seq<nat>, k: nat, m: Meta)
    requires Chained(base, metas, chain) && k < |chain| && chain[k] in metas && m.next == metas[chain[k]].next
    ensures Chained(base, metas[chain[k] := m], chain)
  {
    var metas' := metas[chain[k] := m];
    forall i | 0 <= i < |chain|
      ensures LinkAt(metas', chain, i)
    {
      assert LinkAt(metas, chain, i);
    }
  }

  lemma ReflagBlocks(metas: map<nat, Meta>, chain: seq<nat>, k: nat, m: Meta)
    requires NoDup(chain) && k < |chain|
    ensures BlocksOf(metas[chain[k] := m], chain) == BlocksOf(metas, chain)[k := Block(chain[k], m.size, m.free)]
  {
    var bs, cs := BlocksOf(metas[chain[k] := m], chain), BlocksOf(metas, chain)[k := Block(chain[k], m.size, m.free)];
    forall i | 0 <= i < |bs|
      ensures bs[i] == cs[i]
    {
    }
  }

  /** The chain's last link set to a new header. */
  function Linked(metas: map<nat, Meta>, chain: seq<nat>, a: nat, m: Meta): map<nat, Meta>
    requires chain != [] ==> chain[|chain| - 1] in metas
  {
    if chain == [] then metas[a := m]
    else
      var last := chain[|chain| - 1];
      metas[last := metas[last].(next := a)][a := m]
  }

  lemma AppendChained(base: nat, metas: map<nat, Meta>, chain: seq<nat>, a: nat, m: Meta)
    requires Chained(base, metas, chain) && a > 0 && a !in chain && m.next == 0
    requires chain != [] ==> chain[|chain| - 1] in metas
    ensures Chained(if chain == [] then a else base, Linked(metas, chain, a, m), chain + [a])
  {
    var metas', chain' := Linked(metas, chain, a, m), chain + [a];
    forall i | 0 <= i < |chain'|
      ensures LinkAt(metas', chain', i)
    {
      if i < |chain| {
        assert LinkAt(metas, chain, i) && chain'[i] == chain[i] != a;
      }
    }
  }

  lemma AppendBlocks(metas: map<nat, Meta>, chain: seq<nat>, a: nat, m: Meta)
    requires NoDup(chain) && a !in chain && (chain != [] ==> chain[|chain| - 1] in metas)
    ensures BlocksOf(Linked(metas, chain, a, m), chain + [a]) == BlocksOf(metas, chain) + [Block(a, m.size, m.free)]
  {
    var bs, cs := BlocksOf(Linked(metas, chain, a, m), chain + [a]), BlocksOf(metas, chain) + [Block(a, m.size, m.free)];
    forall i | 0 <= i < |bs|
      ensures bs[i] == cs[i]
    {
      if i < |chain| {
        assert (chain + [a])[i] == chain[i] != a;
      }
    }
  }

  lemma BaseSet(base: nat, metas: map<nat, Meta>, chain: seq<nat>)
    requires Chained(base, metas, chain)
    ensures base == 0 <==> chain == []
  {
    if chain != [] { assert LinkAt(metas, chain, 0); }
  }

  lemma ChainDistinct(base: nat, metas: map<nat, Meta>, chain: seq<nat>)
    requires Chained(base, metas, chain)
    ensures NoDup(chain) && |BlocksOf(metas, chain)| == |chain|
    ensures forall i :: 0 <= i < |chain| ==> BlocksOf(metas, chain)[i].addr == chain[i]
  {
  }

  lemma LinkFacts(base: nat, metas: map<nat, Meta>, chain: seq<nat>, k: nat)
    requires Chained(base, metas, chain) && k < |chain|
    ensures chain[k] in metas && 0 < chain[k] && metas[chain[k]].next == After(chain, k)
    ensures BlocksOf(metas, chain)[k] == Block(chain[k], metas[chain[k]].size, metas[chain[k]].free)
  {
    assert LinkAt(metas, chain, k);
  }

  class Heap {
    var base: nat
    var metas: map<nat, Meta>
    var brk: nat
    var bytes: map<nat, Byte>
    ghost const start: nat
    ghost var chain: seq<nat>

    constructor (brk: nat)
      requires 0 < brk < ADDRESS_LIMIT
      ensures Valid() && Blocks() == [] && this.brk == brk == start
    {
      base, metas, bytes, this.brk := 0, map[], map[], brk;
      start, chain := brk, [];
    }

    ghost function Blocks(): seq<Block>
      reads this
    {
      BlocksOf(metas, chain)
    }

    ghost predicate Valid()
      reads this
    {
      Chained(base, metas, chain) && Tiles(Blocks(), start, brk) && 0 < start && brk < ADDRESS_LIMIT
    }

    /** `find_free_block`: the first fitting block, and the last block passed on the way. */
    method FindFreeBlock(size: nat) returns (last: nat, current: nat, ghost passed: nat)
      requires Valid() && base != 0
      ensures passed <= |chain| && current == (if passed < |chain| then chain[passed] else 0)
      ensures forall i :: 0 <= i < passed ==> chain[i] in metas && !(metas[chain[i]].free && metas[chain[i]].size >= size)
      ensures passed < |chain| ==> current in metas && metas[current].free && metas[current].size >= size
      ensures var k := FirstFit(Blocks(), size);
              && (if k < |chain| then current == chain[k] != 0 else current == 0)
              && (k == |chain| ==> chain != [] && last == chain[|chain| - 1])
    {
      hide Chained, BlocksOf, FirstFit, Tiles;
      ghost var bs := Blocks();
      ghost var k := 0;
      Sizes();
      BaseSet(base, metas, chain);
      last, current := base, base;
      assert bs[0..] == bs;
      if chain != [] { LinkFacts(base, metas, chain, 0); }
      FitTurn(bs, 0, size);
      while current != 0 && !(metas[current].free && metas[current].size >= size)
        invariant 0 <= k <= |chain| && current == (if k < |chain| then chain[k] else 0)
        invariant k > 0 ==> last == chain[k - 1]
        invariant forall i :: 0 <= i < k ==> chain[i] in metas && !(metas[chain[i]].free && metas[chain[i]].size >= size)
        invariant k < |chain| ==> current in metas && current > 0 && bs[k] == Block(current, metas[current].size, metas[current].free)
        invariant FirstFit(bs, size) == k + FirstFit(bs[k..], size)
        decreases |chain| - k
      {
        FitTurn(bs, k, size);
        LinkFacts(base, metas, chain, k);
        if k + 1 < |chain| { LinkFacts(base, metas, chain, k + 1); }
        last := current;
        current := metas[current].next;
        k := k + 1;
      }
      FitTurn(bs, k, size);
      passed := k;
    }

    lemma Sizes()
      requires Valid()
      ensures |Blocks()| == |chain| && base == (if chain == [] then 0 else chain[0]) && NoDup(chain)
      ensures forall i :: 0 <= i < |chain| ==> Blocks()[i].addr == chain[i]
    {
    }

    /** `request_space`: a new block at the old break, linked after `last`. */
    method RequestSpace(last: nat, size: nat) returns (block: nat)
      requires Valid() && size < ADDRESS_LIMIT && last == (if chain == [] then 0 else chain[|chain| - 1])
      modifies `metas, `brk, `base, `chain
      ensures Chained(base, metas, chain) && chain == old(chain) + [block] && block == old(brk)
      ensures Blocks() == old(Blocks()) + [Block(block, size, false)] && brk == Sbrk(old(brk), size + META_SIZE)
    {
      hide Chained, BlocksOf, Tiles, Sbrk;
      block := brk;
      Sizes();
      BrkIsNew(Blocks(), chain, start, brk);
      if chain != [] { LinkFacts(base, metas, chain, |chain| - 1); }
      AppendChained(base, metas, chain, block, Meta(size, false, MAGIC, 0));
      AppendBlocks(metas, chain, block, Meta(size, false, MAGIC, 0));
      brk := Sbrk(brk, size + META_SIZE);
      if last != 0 {
        metas := metas[last := metas[last].(next := block)];
      } else {
        base := block;
      }
      metas := metas[block := Meta(size, false, MAGIC, 0)];
      chain := chain + [block];
    }

    method Malloc(size: nat) returns (ptr: nat)
      requires Valid() && size < ADDRESS_LIMIT
      modifies `metas, `brk, `base, `chain
      ensures size == 0 ==> ptr == 0 && Valid() && Blocks() == old(Blocks()) && brk == old(brk) && chain == old(chain)
      ensures Chained(base, metas, chain)
      ensures size > 0 ==>
        var k := FirstFit(old(Blocks()), size);
        && Blocks() == Malloced(old(Blocks()), old(brk), size) && k < |Blocks()| == |chain| && ptr == Payload(Blocks()[k])
        && brk == (if k < |old(Blocks())| then old(brk) else Sbrk(old(brk), size + META_SIZE))
        && (Valid() <==> k < |old(Blocks())| || old(brk) + size + META_SIZE < ADDRESS_LIMIT)
      ensures size > 0 ==> Answers(old(Blocks()), old(brk), size, ptr) && OnlyTaken(old(Blocks()), Blocks(), old(brk), size, ptr)
      ensures size > 0 && (exists i :: 0 <= i < |old(Blocks())| && old(Blocks())[i].free && old(Blocks())[i].size >= size) ==>
        brk == old(brk) && Valid()
      ensures size > 0 && (forall i :: 0 <= i < |old(Blocks())| ==> !(old(Blocks())[i].free && old(Blocks())[i].size >= size)) ==>
        (Valid() <==> old(brk) + size + META_SIZE < ADDRESS_LIMIT) && (Valid() ==> brk == old(brk) + size + META_SIZE)
    {
      hide FirstFit, Malloced, Answers, OnlyTaken, Chained, BlocksOf, Tiles, Sbrk;
      if size == 0 {
        return 0;
      }
      MallocAnswers(Blocks(), start, brk, size);
      FitExists(Blocks(), size);
      SbrkMoves(brk, size + META_SIZE);
      ptr := TakeBlock(size);
    }

    /** `malloc` of a non-zero size. */
    method TakeBlock(size: nat) returns (ptr: nat)
      requires Valid() && 0 < size < ADDRESS_LIMIT
      modifies `metas, `brk, `base, `chain
      ensures Chained(base, metas, chain)
      ensures
        var k := FirstFit(old(Blocks()), size);
        && Blocks() == Malloced(old(Blocks()), old(brk), size) && k < |Blocks()| == |chain| && ptr == Payload(Blocks()[k])
        && brk == (if k < |old(Blocks())| then old(brk) else Sbrk(old(brk), size + META_SIZE))
        && (Valid() <==> k < |old(Blocks())| || old(brk) + size + META_SIZE < ADDRESS_LIMIT)
    {
      hide Chained, BlocksOf, Tiles, Sbrk;
      ghost var bs := Blocks();
      Sizes();
      SbrkMoves(brk, size + META_SIZE);
      MallocTiles(bs, start, brk, size);
      BaseSet(base, metas, chain);
      var last, block := 0, 0;
      if base != 0 {
        ghost var passed;
        last, block, passed := FindFreeBlock(size);
      }
      if block == 0 {
        block := RequestSpace(last, size);
      } else {
        LinkFacts(base, metas, chain, FirstFit(bs, size));
        var m := metas[block].(free := false, magic := 0x7777_7777);
        ReflagChained(base, metas, chain, FirstFit(bs, size), m);
        ReflagBlocks(metas, chain, FirstFit(bs, size), m);
        metas := metas[block := m];
      }
      ptr := block + META_SIZE;
    }

    /** `free`; a null pointer is ignored. It needs the chain only, not the tiling. */
    method Free(ptr: nat, ghost k: nat)
      requires Chained(base, metas, chain) && (ptr != 0 ==> k < |chain| && ptr == chain[k] + META_SIZE)
      modifies `metas
      ensures Chained(base, metas, chain) && (Valid() <==> old(Valid()))
      ensures Blocks() == if ptr == 0 then old(Blocks()) else old(Blocks())[k := old(Blocks())[k].(free := true)]
    {
      hide Chained, BlocksOf, Tiles;
      if ptr == 0 {
        return;
      }
      var block := ptr - META_SIZE;
      LinkFacts(base, metas, chain, k);
      ChainDistinct(base, metas, chain);
      var m := metas[block].(free := true, magic := 0x5555_5555);
      ReflagChained(base, metas, chain, k, m);
      ReflagBlocks(metas, chain, k, m);
      ReflagTiles(Blocks(), k, Block(block, m.size, m.free), start, brk);
      metas := metas[block := m];
    }

    method Memcpy(dst: nat, src: nat, n: nat)
      requires dst + n <= src || src + n <= dst
      modifies `bytes
      ensures Copied(old(bytes), bytes, dst, src, n)
    {
      var i := 0;
      while i < n
        invariant 0 <= i <= n && Copied(old(bytes), bytes, dst, src, i)
      {
        CopyStep(old(bytes), bytes, dst, src, i);
        bytes := bytes[dst + i := ByteAt(bytes, src + i)];
        i := i + 1;
      }
    }

    /** `realloc` of the live block `k` (or of null). A larger request moves the payload: its bytes
        are copied, the old block is freed, and no byte outside the new payload changes. The heap
        stays well formed if and only if no block was needed, one fitted, or the break could move. */
    method Realloc(ptr: nat, size: nat, ghost k: nat) returns (r: nat)
      requires Valid() && size < ADDRESS_LIMIT
      requires ptr != 0 ==> k < |chain| == |Blocks()| && ptr == Payload(Blocks()[k]) && !Blocks()[k].free
      modifies `metas, `brk, `base, `chain, `bytes
      ensures Chained(base, metas, chain)
      ensures Valid() <==>
        || (if ptr == 0 then size == 0 else old(Blocks())[k].size >= size)
        || FirstFit(old(Blocks()), size) < |old(Blocks())|
        || old(brk) + size + META_SIZE < ADDRESS_LIMIT
      ensures ptr == 0 && size == 0 ==> r == 0 && bytes == old(bytes) && Blocks() == old(Blocks())
      ensures ptr == 0 && size > 0 ==>
        var j := FirstFit(old(Blocks()), size);
        && bytes == old(bytes) && Blocks() == Malloced(old(Blocks()), old(brk), size)
        && j < |Blocks()| && r == Payload(Blocks()[j])
      ensures ptr != 0 && old(Blocks())[k].size >= size ==> r == ptr && Blocks() == old(Blocks()) && bytes == old(bytes)
      ensures ptr != 0 && old(Blocks())[k].size < size ==>
        var bs := old(Blocks());
        var ms := Malloced(bs, old(brk), size);
        var j := FirstFit(bs, size);
        && j != k && k < |ms| && j < |ms| && Blocks() == ms[k := ms[k].(free := true)] && r == Payload(ms[j]) && ms[j].size >= size
        && Copied(old(bytes), bytes, r, ptr, bs[k].size)
      ensures (if ptr == 0 then size > 0 else old(Blocks())[k].size < size) ==> Answers(old(Blocks()), old(brk), size, r)
    {
      hide Chained, BlocksOf, Tiles, FirstFit, Sbrk, Answers, OnlyTaken, Malloced, Copied;
      if ptr == 0 {
        r := Malloc(size);
        return;
      }
      Sizes();
      LinkFacts(base, metas, chain, k);
      var n := metas[ptr - META_SIZE].size;
      if n >= size {
        return ptr;
      }
      ghost var bs, brk0 := Blocks(), brk;
      MallocApart(bs, start, brk, size, k);
      r := Malloc(size);
      MallocedFacts(bs, brk0, size, k);
      ChainDistinct(base, metas, chain);
      Memcpy(r, ptr, n);
      Free(ptr, k);
    }
  }

  /** The block found or made is apart from a live one, also where the break did not move. */
  lemma MallocApart(bs: seq<Block>, start: nat, brk: nat, size: nat, k: nat)
    requires Tiles(bs, start, brk) && k < |bs| && !bs[k].free && bs[k].size < size
    ensures var ms, j := Malloced(bs, brk, size), FirstFit(bs, size);
            && j < |ms| && j != k
            && (Payload(bs[k]) + bs[k].size <= Payload(ms[j]) || Payload(ms[j]) + bs[k].size <= Payload(bs[k]))
  {
    hide Tiles;
    var j := FirstFit(bs, size);
    if j < |bs| {
      PayloadsDisjoint(bs, start, brk, k, j);
      PayloadsDisjoint(bs, start, brk, j, k);
    } else {
      TilesInside(bs, start, brk, k);
    }
  }

  function ByteAt(bytes: map<nat, Byte>, a: nat): Byte { if a in bytes then bytes[a] else 0 }

  /** The `n` bytes at `dst` are those that were at `src`; all others are as they were. */
  ghost predicate Copied(before: map<nat, Byte>, after: map<nat, Byte>, dst: nat, src: nat, n: nat) {
    forall a: nat {:trigger ByteAt(after, a)} ::
      ByteAt(after, a) == (if dst <= a < dst + n then ByteAt(before, src + (a - dst)) else ByteAt(before, a))
  }

  lemma CopyStep(before: map<nat, Byte>, now: map<nat, Byte>, dst: nat, src: nat, i: nat)
    requires Copied(before, now, dst, src, i) && !(dst <= src + i < dst + i)
    ensures Copied(before, now[dst + i := ByteAt(now, src + i)], dst, src, i + 1)
  {
    var after := now[dst + i := ByteAt(now, src + i)];
    assert ByteAt(now, src + i) == ByteAt(before, src + i);
    forall a: nat
      ensures ByteAt(after, a) == (if dst <= a < dst + (i + 1) then ByteAt(before, src + (a - dst)) else ByteAt(before, a))
    {
      assert a != dst + i ==> ByteAt(after, a) == ByteAt(now, a);
    }
  }

  lemma ReflagTiles(bs: seq<Block>, k: nat, b: Block, start: nat, brk: nat)
    requires k < |bs| && b.addr == bs[k].addr && b.size == bs[k].size
    ensures Tiles(bs[k := b], start, brk) <==> Tiles(bs, start, brk)
  {
    SameTiles(bs, k, b, start, brk);
    if Tiles(bs[k := b], start, brk) {
      assert bs[k := b][k := bs[k]] == bs;
      SameTiles(bs[k := b], k, bs[k], start, brk);
    }
  }

  lemma SameTiles(bs: seq<Block>, k: nat, b: Block, start: nat, brk: nat)
    requires k < |bs| && b.addr == bs[k].addr && b.size == bs[k].size
    ensures Tiles(bs, start, brk) ==> Tiles(bs[k := b], start, brk)
  {
  }

  /** A live block is not the one chosen, stays live and is smaller than the request that moved it. */
  lemma MallocedFacts(bs: seq<Block>, brk: nat, size: nat, k: nat)
    requires k < |bs| && !bs[k].free && bs[k].size < size
    ensures var ms, j := Malloced(bs, brk, size), FirstFit(bs, size);
            j != k && k < |ms| && j < |ms| && ms[k] == bs[k] && ms[j].size >= size
  {
  }

  lemma FitTurn(bs: seq<Block>, k: nat, size: nat)
    requires k <= |bs|
    ensures k == |bs| ==> FirstFit(bs[k..], size) == 0
    ensures k < |bs| && Fit(bs[k], size) ==> FirstFit(bs[k..], size) == 0
    ensures k < |bs| && !Fit(bs[k], size) ==> FirstFit(bs[k..], size) == 1 + FirstFit(bs[k + 1..], size)
  {
    if k < |bs| {
      assert bs[k..][0] == bs[k] && bs[k..][1..] == bs[k + 1..];
    }
  }

  lemma FitExists(bs: seq<Block>, size: nat)
    ensures FirstFit(bs, size) < |bs| <==> exists i :: 0 <= i < |bs| && bs[i].free && bs[i].size >= size
  {
    var k := FirstFit(bs, size);
    assert forall i :: 0 <= i < k ==> !Fit(bs[i], size);
    if k < |bs| { assert Fit(bs[k], size); }
  }

  /** The break moves up by what is asked for if that fits. */
  lemma SbrkMoves(brk: nat, increment: nat)
    requires brk < ADDRESS_LIMIT
    ensures Sbrk(brk, increment) < ADDRESS_LIMIT && (brk + increment < ADDRESS_LIMIT ==> Sbrk(brk, increment) == brk + increment)
  {
  }

  lemma BrkIsNew(bs: seq<Block>, chain: seq<nat>, start: nat, brk: nat)
    requires Tiles(bs, start, brk) && |bs| == |chain| && forall i :: 0 <= i < |bs| ==> bs[i].addr == chain[i]
    ensures brk !in chain && start <= brk
  {
    if chain != [] { TilesInside(bs, start, brk, 0); }
    forall i | 0 <= i < |chain|
      ensures chain[i] != brk
    {
      TilesInside(bs, start, brk, i);
    }
  }

  // ---- Runs ----

  datatype Layout = Layout(blocks: seq<Block>, brk: nat)
  datatype Call = Allocate(size: nat) | Release(k: nat)

  /** A call as the layout sees it; `realloc` is an `Allocate` and a `Release`. */
  function Apply(h: Layout, c: Call): Layout {
    match c
    case Allocate(size) =>
      if size == 0 then h
      else Layout(Malloced(h.blocks, h.brk, size),
                  if FirstFit(h.blocks, size) < |h.blocks| then h.brk else Sbrk(h.brk, size + META_SIZE))
    case Release(k) => if k < |h.blocks| then h.(blocks := h.blocks[k := h.blocks[k].(free := true)]) else h
  }

  /** The address space has room for the growth the call needs. */
  predicate Room(h: Layout, c: Call) {
    c.Allocate? ==> c.size < ADDRESS_LIMIT && (FirstFit(h.blocks, c.size) < |h.blocks| || h.brk + c.size + META_SIZE < ADDRESS_LIMIT)
  }

  ghost predicate IsRun(run: seq<Layout>, calls: seq<Call>) {
    && |run| == |calls| + 1
    && forall i :: 0 <= i < |calls| ==> Room(run[i], calls[i]) && run[i + 1] == Apply(run[i], calls[i])
  }

  /** At every point of every run the blocks tile the heap from its start to the break. */
  lemma {:induction false} RunTiles(run: seq<Layout>, calls: seq<Call>, start: nat, i: nat)
    requires IsRun(run, calls) && run[0] == Layout([], start) && start < ADDRESS_LIMIT && i < |run|
    ensures Tiles(run[i].blocks, start, run[i].brk) && run[i].brk < ADDRESS_LIMIT
  {
    hide Tiles, FirstFit, Malloced;
    if i == 0 {
      NothingTiles(start);
    } else {
      RunTiles(run, calls, start, i - 1);
      var h, c := run[i - 1], calls[i - 1];
      assert run[i - 1 + 1] == Apply(h, c) && Room(h, c);
      match c
      case Allocate(size) => MallocTiles(h.blocks, start, h.brk, size);
      case Release(k) =>
        if k < |h.blocks| {
          ReflagTiles(h.blocks, k, h.blocks[k].(free := true), start, h.brk);
        }
    }
  }

  // ---- The pointers a program holds ----

  /** The heap and the pointers handed out and not yet freed, with the sizes asked for. */
  datatype Program = Program(heap: Layout, held: map<nat, nat>)

  datatype Request = Take(size: nat) | Drop(ptr: nat) | Resize(ptr: nat, size: nat)

  /** Index of the block with that payload, or the length. */
  function Find(bs: seq<Block>, ptr: nat): (k: nat)
    ensures k <= |bs| && (k < |bs| ==> Payload(bs[k]) == ptr) && forall i :: 0 <= i < k ==> Payload(bs[i]) != ptr
  {
    if bs == [] || Payload(bs[0]) == ptr then 0 else 1 + Find(bs[1..], ptr)
  }

  /** What `malloc` of a non-zero size returns. */
  function Returned(h: Layout, size: nat): nat {
    var ms, k := Malloced(h.blocks, h.brk, size), FirstFit(h.blocks, size);
    if k < |ms| then Payload(ms[k]) else 0
  }

  function Taken(p: Program, size: nat): Program {
    Program(Apply(p.heap, Allocate(size)), if size == 0 then p.held else p.held[Returned(p.heap, size) := size])
  }

  function Dropped(p: Program, ptr: nat): Program {
    if ptr == 0 then p else Program(Apply(p.heap, Release(Find(p.heap.blocks, ptr))), p.held - {ptr})
  }

  /** `malloc`, `free` and `realloc`. */
  function Serve(p: Program, r: Request): Program {
    match r
    case Take(size) => Taken(p, size)
    case Drop(ptr) => Dropped(p, ptr)
    case Resize(ptr, size) =>
      if ptr == 0 then Taken(p, size)
      else if Suffices(p.heap.blocks, ptr, size) then p.(held := p.held[ptr := size])
      else Dropped(Taken(p, size), ptr)
  }

  /** The program frees and resizes only what it holds, and the break can grow when it must. */
  predicate Proper(p: Program, r: Request) {
    match r
    case Take(size) => Room(p.heap, Allocate(size))
    case Drop(ptr) => ptr == 0 || ptr in p.held
    case Resize(ptr, size) =>
      && (ptr == 0 || ptr in p.held)
      && (Room(p.heap, Allocate(size)) || (ptr != 0 && Suffices(p.heap.blocks, ptr, size)))
  }

  /** The block of the pointer has that many bytes. */
  predicate Suffices(bs: seq<Block>, ptr: nat, size: nat) { Find(bs, ptr) < |bs| && bs[Find(bs, ptr)].size >= size }

  /** The held pointers are exactly the payloads of the live blocks, each with the bytes asked for. */
  ghost predicate Matches(bs: seq<Block>, held: map<nat, nat>) {
    && (forall i :: 0 <= i < |bs| ==> Accounted(bs[i], held))
    && (forall ptr <- held :: Find(bs, ptr) < |bs|)
  }

  ghost predicate Accounted(b: Block, held: map<nat, nat>) {
    && (!b.free <==> Payload(b) in held)
    && (Payload(b) in held ==> held[Payload(b)] <= b.size)
  }

  ghost predicate HeapInv(p: Program, start: nat) {
    Tiles(p.heap.blocks, start, p.heap.brk) && 0 < start && p.heap.brk < ADDRESS_LIMIT && Matches(p.heap.blocks, p.held)
  }

  /** A pointer stands for one block. */
  lemma FoundLater(bs: seq<Block>, i: nat, ptr: nat)
    requires i < |bs| && Payload(bs[i]) == ptr
    ensures Find(bs, ptr) < |bs|
  {
  }

  /** `malloc` hands out a pointer the program does not hold. */
  lemma TakeKeeps(p: Program, start: nat, size: nat)
    requires HeapInv(p, start) && size > 0 && Room(p.heap, Allocate(size))
    ensures HeapInv(Taken(p, size), start) && Returned(p.heap, size) !in p.held && Returned(p.heap, size) != 0
  {
    hide Tiles, FirstFit, Malloced, Answers;
    var bs, brk := p.heap.blocks, p.heap.brk;
    var ms, k := Malloced(bs, brk, size), FirstFit(bs, size);
    MallocAnswers(bs, start, brk, size);
    MallocTiles(bs, start, brk, size);
    SbrkMoves(brk, size + META_SIZE);
    NotLive(bs, brk, size, Payload(ms[k]), p.held);
    BigEnough(bs, brk, size);
    PayloadsDiffer(ms, start, Taken(p, size).heap.brk);
    TakenMatches(bs, ms, brk, size, Payload(ms[k]), p.held, k);
  }

  lemma PayloadsDiffer(bs: seq<Block>, start: nat, brk: nat)
    requires Tiles(bs, start, brk)
    ensures forall i, j :: 0 <= i < j < |bs| ==> Payload(bs[i]) != Payload(bs[j])
  {
    hide Tiles;
    forall i, j | 0 <= i < j < |bs|
      ensures Payload(bs[i]) != Payload(bs[j])
    {
      TilesApart(bs, start, brk, i, j);
    }
  }

  lemma NotLive(bs: seq<Block>, brk: nat, size: nat, ptr: nat, held: map<nat, nat>)
    requires Answers(bs, brk, size, ptr) && Matches(bs, held)
    ensures ptr !in held
  {
  }

  lemma BigEnough(bs: seq<Block>, brk: nat, size: nat)
    ensures var ms, k := Malloced(bs, brk, size), FirstFit(bs, size); k < |ms| && ms[k].size >= size
  {
  }

  lemma TakenMatches(bs: seq<Block>, ms: seq<Block>, brk: nat, size: nat, ptr: nat, held: map<nat, nat>, k: nat)
    requires OnlyTaken(bs, ms, brk, size, ptr) && Matches(bs, held) && ptr !in held
    requires k < |ms| && Payload(ms[k]) == ptr && ms[k].size >= size
    requires forall i, j :: 0 <= i < j < |ms| ==> Payload(ms[i]) != Payload(ms[j])
    ensures Matches(ms, held[ptr := size])
  {
    hide Find;
    forall i | 0 <= i < |ms|
      ensures Accounted(ms[i], held[ptr := size])
    {
      assert i != k ==> Payload(ms[i]) != Payload(ms[k]);
      assert i < |bs| ==> Accounted(bs[i], held);
    }
    forall q | q in held[ptr := size]
      ensures Find(ms, q) < |ms|
    {
      FoundLater(ms, if q == ptr then k else Find(bs, q), q);
    }
  }

  lemma DropKeeps(p: Program, start: nat, ptr: nat)
    requires HeapInv(p, start) && ptr in p.held && ptr != 0
    ensures HeapInv(Dropped(p, ptr), start)
  {
    hide Tiles, Find, Matches;
    var bs := p.heap.blocks;
    HeldFound(p, start, ptr);
    var k := Find(bs, ptr);
    ReflagTiles(bs, k, bs[k].(free := true), start, p.heap.brk);
    PayloadsDiffer(bs, start, p.heap.brk);
    DroppedMatches(bs, k, p.held);
  }

  lemma DroppedMatches(bs: seq<Block>, k: nat, held: map<nat, nat>)
    requires Matches(bs, held) && k < |bs|
    requires forall i, j :: 0 <= i < j < |bs| ==> Payload(bs[i]) != Payload(bs[j])
    ensures Matches(bs[k := bs[k].(free := true)], held - {Payload(bs[k])})
  {
    hide Find;
    var ms := bs[k := bs[k].(free := true)];
    forall i | 0 <= i < |ms|
      ensures Accounted(ms[i], held - {Payload(bs[k])})
    {
      assert i != k ==> Payload(bs[i]) != Payload(bs[k]);
      assert Accounted(bs[i], held);
    }
    forall q | q in held - {Payload(bs[k])}
      ensures Find(ms, q) < |ms|
    {
      FoundLater(ms, Find(bs, q), q);
    }
  }

  lemma ServeKeeps(p: Program, start: nat, r: Request)
    requires HeapInv(p, start) && Proper(p, r)
    ensures HeapInv(Serve(p, r), start)
  {
    hide HeapInv, Taken, Dropped, Tiles;
    match r
    case Take(size) => TakeOrNot(p, start, size);
    case Drop(ptr) => if ptr != 0 { DropKeeps(p, start, ptr); } else { DropNothing(p); }
    case Resize(ptr, size) =>
      if ptr == 0 {
        TakeOrNot(p, start, size);
      } else if Suffices(p.heap.blocks, ptr, size) {
        StayKeeps(p, start, ptr, size);
      } else {
        HeldFound(p, start, ptr);
        TakeKeeps(p, start, size);
        TakenHolds(p, size, ptr);
        DropKeeps(Taken(p, size), start, ptr);
      }
  }

  lemma TakeOrNot(p: Program, start: nat, size: nat)
    requires HeapInv(p, start) && Room(p.heap, Allocate(size))
    ensures HeapInv(Taken(p, size), start)
  {
    if size > 0 { TakeKeeps(p, start, size); }
  }

  lemma DropNothing(p: Program)
    ensures Dropped(p, 0) == p
  {
  }

  lemma HeldFound(p: Program, start: nat, ptr: nat)
    requires HeapInv(p, start) && ptr in p.held
    ensures Find(p.heap.blocks, ptr) < |p.heap.blocks|
  {
    hide Tiles;
  }

  lemma TakenHolds(p: Program, size: nat, ptr: nat)
    requires ptr in p.held
    ensures ptr in Taken(p, size).held
  {
  }

  lemma StayKeeps(p: Program, start: nat, ptr: nat, size: nat)
    requires HeapInv(p, start) && ptr in p.held && Find(p.heap.blocks, ptr) < |p.heap.blocks|
    requires p.heap.blocks[Find(p.heap.blocks, ptr)].size >= size
    ensures HeapInv(p.(held := p.held[ptr := size]), start)
  {
    hide Tiles;
    PayloadsDiffer(p.heap.blocks, start, p.heap.brk);
  }

  /** Two pointers the program holds have payloads apart, with the bytes asked for, inside the heap. */
  lemma HeldApart(p: Program, start: nat, a: nat, b: nat)
    requires HeapInv(p, start) && a in p.held && b in p.held && a < b
    ensures start < a && a + p.held[a] <= b && b + p.held[b] <= p.heap.brk
  {
    hide Tiles;
    var bs := p.heap.blocks;
    var i, j := Find(bs, a), Find(bs, b);
    PayloadsDisjoint(bs, start, p.heap.brk, i, j);
    TilesInside(bs, start, p.heap.brk, i);
    TilesInside(bs, start, p.heap.brk, j);
  }

  ghost predicate IsProgram(run: seq<Program>, rs: seq<Request>) {
    && |run| == |rs| + 1
    && forall i :: 0 <= i < |rs| ==> Proper(run[i], rs[i]) && run[i + 1] == Serve(run[i], rs[i])
  }

  /** In every run of `malloc`, `free` and `realloc` the pointers handed out and not yet freed are
      pairwise different, with disjoint payloads of at least the sizes asked for, and `malloc` never
      hands out one of them again. */
  lemma {:induction false} RunHeld(run: seq<Program>, rs: seq<Request>, start: nat, i: nat, a: nat, b: nat)
    requires IsProgram(run, rs) && run[0] == Program(Layout([], start), map[]) && 0 < start < ADDRESS_LIMIT && i < |run|
    ensures HeapInv(run[i], start)
    ensures a in run[i].held && b in run[i].held && a < b ==> start < a && a + run[i].held[a] <= b && b + run[i].held[b] <= run[i].heap.brk
    ensures i < |rs| && rs[i].Take? && rs[i].size > 0 ==>
      var ptr := Returned(run[i].heap, rs[i].size);
      ptr !in run[i].held && run[i + 1].held == run[i].held[ptr := rs[i].size]
  {
    hide HeapInv, Serve, Proper, Tiles;
    if i == 0 {
      NothingHeld(start);
    } else {
      RunHeld(run, rs, start, i - 1, a, b);
      assert run[i - 1 + 1] == Serve(run[i - 1], rs[i - 1]);
      ServeKeeps(run[i - 1], start, rs[i - 1]);
    }
    if a in run[i].held && b in run[i].held && a < b { HeldApart(run[i], start, a, b); }
    if i < |rs| && rs[i].Take? && rs[i].size > 0 {
      assert Proper(run[i], rs[i]) && run[i + 1] == Serve(run[i], rs[i]);
      TakeServed(run[i], start, rs[i].size);
    }
  }

  lemma NothingHeld(start: nat)
    requires 0 < start < ADDRESS_LIMIT
    ensures HeapInv(Program(Layout([], start), map[]), start)
  {
  }

  lemma TakeServed(p: Program, start: nat, size: nat)
    requires HeapInv(p, start) && size > 0 && Proper(p, Take(size))
    ensures Returned(p.heap, size) !in p.held && Serve(p, Take(size)).held == p.held[Returned(p.heap, size) := size]
  {
    hide HeapInv;
    TakeKeeps(p, start, size);
  }

  lemma NothingTiles(start: nat)
    ensures Tiles([], start, start)
  {
  }

  /** A page asked for with the break one page below 2^32: the break stays, the block is chained anyway. */
  lemma OverflowExample()
    ensures var brk := 0xffff_f000;
            Sbrk(brk, 0x1000 + META_SIZE) == brk && Malloced([], brk, 0x1000) == [Block(brk, 0x1000, false)]
            && !Tiles(Malloced([], brk, 0x1000), brk, brk)
  {
  }
}

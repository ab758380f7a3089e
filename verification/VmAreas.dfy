/** A process's list of mapped areas: singly linked, sorted by start address, edited through
    pointer-to-pointer loops. */
module VmAreas {
  import opened Seqs

  const PAGE_SIZE := 4096
  const ADDRESS_LIMIT := 0x1_0000_0000

  /** `PAGE_ALIGN` in 32-bit arithmetic; lengths within a page of 2^32 wrap to 0. */
  function PageAlign(len: nat): nat { (len + PAGE_SIZE - 1) % ADDRESS_LIMIT / PAGE_SIZE * PAGE_SIZE }

  datatype Range = Range(start: nat, end: nat)

  /** Non-empty areas, each ending at or before the start of the next. */
  predicate Ordered(rs: seq<Range>) {
    && (forall i :: 0 <= i < |rs| ==> rs[i].start < rs[i].end)
    && (forall i, j :: 0 <= i < j < |rs| ==> rs[i].end <= rs[j].start)
  }

  predicate Meets(r: Range, addr: nat, end: nat) { !(end <= r.start || addr >= r.end) }

  /** The areas that do not meet [addr, end), in order. */
  function Outside(rs: seq<Range>, addr: nat, end: nat): seq<Range> {
    if rs == [] then []
    else
      var n := |rs| - 1;
      Outside(rs[..n], addr, end) + (if Meets(rs[n], addr, end) then [] else [rs[n]])
  }

  /** Index of the first area that starts after `start`. */
  function Slot(rs: seq<Range>, start: nat): (k: nat)
    ensures k <= |rs| && (k < |rs| ==> rs[k].start > start)
    ensures forall i :: 0 <= i < k ==> rs[i].start <= start
  {
    if rs == [] || rs[0].start > start then 0 else 1 + Slot(rs[1..], start)
  }

  function Insert(rs: seq<Range>, r: Range): seq<Range> { rs[..Slot(rs, r.start)] + [r] + rs[Slot(rs, r.start)..] }

  lemma OutsideNext(rs: seq<Range>, i: nat, addr: nat, end: nat)
    requires i < |rs|
    ensures Outside(rs[..i + 1], addr, end) == Outside(rs[..i], addr, end) + (if Meets(rs[i], addr, end) then [] else [rs[i]])
  {
    assert rs[..i + 1][..i] == rs[..i];
  }

  predicate Within(x: nat, lo: nat, hi: nat) { lo <= x < hi }

  /** Some address is in the area and in [addr, end). */
  ghost predicate Shares(r: Range, addr: nat, end: nat) { exists x: nat :: Within(x, r.start, r.end) && Within(x, addr, end) }

  /** The loop's test of an area is whether it shares an address with the range. */
  lemma MeetsIsSharing(r: Range, addr: nat, end: nat)
    requires r.start < r.end && addr < end
    ensures Meets(r, addr, end) <==> Shares(r, addr, end)
  {
    if Meets(r, addr, end) {
      var x := if r.start < addr then addr else r.start;
      assert Within(x, r.start, r.end) && Within(x, addr, end);
    }
  }

  /** Rounding up to pages: the least multiple of the page size that is at least the length, unless
      that does not fit 32 bits, when it is 0. */
  lemma PageAlignIs(len: nat, m: nat)
    requires len < ADDRESS_LIMIT
    ensures if len <= ADDRESS_LIMIT - PAGE_SIZE
            then PageAlign(len) % PAGE_SIZE == 0 && len <= PageAlign(len) && (m % PAGE_SIZE == 0 && len <= m ==> PageAlign(len) <= m)
            else PageAlign(len) == 0
  {
  }

  /** Unmapping keeps exactly the areas that share no address with the range, */
  lemma UnmapByAddress(rs: seq<Range>, addr: nat, end: nat, r: Range)
    requires Ordered(rs) && addr < end
    ensures r in Outside(rs, addr, end) <==> r in rs && !Shares(r, addr, end)
  {
    hide Meets, Outside, Shares;
    OutsideMembers(rs, addr, end);
    if r in rs { MeetsIsSharing(r, addr, end); }
  }

  /** The range of a call on the circle of 32-bit addresses. */
  predicate InCircle(x: nat, addr: nat, len: nat) { Within(x, addr, addr + len) || Within(x + ADDRESS_LIMIT, addr, addr + len) }

  /** The area shares an address with the range of the call, wrapped around or not. */
  ghost predicate SharesCircle(r: Range, addr: nat, len: nat) { exists x: nat :: Within(x, r.start, r.end) && InCircle(x, addr, len) }

  /** Dropping areas by the 32-bit end of the range is right for every area there can be if and only if
      the range does not wrap, the one last byte of the address space, which no area reaches, aside. */
  lemma UnmapWraps(addr: nat, len: nat)
    requires addr < ADDRESS_LIMIT && 0 < len < ADDRESS_LIMIT
    ensures (forall r: Range {:trigger SharesCircle(r, addr, len)} :: r.start < r.end < ADDRESS_LIMIT ==>
               (Meets(r, addr, (addr + len) % ADDRESS_LIMIT) <==> SharesCircle(r, addr, len)))
            <==> addr + len < ADDRESS_LIMIT || len == 1
  {
    var end := (addr + len) % ADDRESS_LIMIT;
    if addr + len < ADDRESS_LIMIT || len == 1 {
      forall r: Range | r.start < r.end < ADDRESS_LIMIT
        ensures Meets(r, addr, end) <==> SharesCircle(r, addr, len)
      {
        NoWrapShares(r, addr, len);
      }
    } else if addr + 1 < ADDRESS_LIMIT {
      var r := Range(addr, addr + 1);
      assert Within(addr, r.start, r.end) && InCircle(addr, addr, len);
      assert SharesCircle(r, addr, len) && !Meets(r, addr, end);
    } else {
      var r := Range(0, 1);
      assert Within(0, r.start, r.end) && InCircle(0, addr, len);
      assert SharesCircle(r, addr, len) && !Meets(r, addr, end);
    }
  }

  lemma NoWrapShares(r: Range, addr: nat, len: nat)
    requires addr < ADDRESS_LIMIT && 0 < len && r.start < r.end < ADDRESS_LIMIT
    requires addr + len < ADDRESS_LIMIT || len == 1
    ensures Meets(r, addr, (addr + len) % ADDRESS_LIMIT) <==> SharesCircle(r, addr, len)
  {
    if addr + len < ADDRESS_LIMIT {
      MeetsIsSharing(r, addr, addr + len);
      if Shares(r, addr, addr + len) {
        var x: nat :| Within(x, r.start, r.end) && Within(x, addr, addr + len);
        assert InCircle(x, addr, len);
      }
      if SharesCircle(r, addr, len) {
        var x: nat :| Within(x, r.start, r.end) && InCircle(x, addr, len);
        assert Within(x, addr, addr + len);
      }
    } else {
      assert addr == ADDRESS_LIMIT - 1;
    }
  }

  /** Unmapping keeps the areas its test lets pass, */
  lemma {:induction false} OutsideMembers(rs: seq<Range>, addr: nat, end: nat)
    ensures forall r :: r in Outside(rs, addr, end) <==> r in rs && !Meets(r, addr, end)
  {
    if rs != [] {
      var n := |rs| - 1;
      OutsideMembers(rs[..n], addr, end);
      assert rs == rs[..n] + [rs[n]];
    }
  }

  /** and keeps them in order. */
  lemma {:induction false} OutsideOrdered(rs: seq<Range>, addr: nat, end: nat)
    requires Ordered(rs)
    ensures Ordered(Outside(rs, addr, end))
  {
    if rs != [] {
      var n := |rs| - 1;
      var out := Outside(rs[..n], addr, end);
      OutsideOrdered(rs[..n], addr, end);
      OutsideMembers(rs[..n], addr, end);
      forall i | 0 <= i < |out|
        ensures out[i].end <= rs[n].start
      {
        assert out[i] in out;
        var j :| 0 <= j < n && rs[..n][j] == out[i];
      }
    }
  }

  lemma OrderedInsertion(rs: seq<Range>, k: nat, r: Range)
    requires Ordered(rs) && r.start < r.end && k <= |rs|
    requires forall i :: 0 <= i < k ==> rs[i].end <= r.start
    requires forall i :: k <= i < |rs| ==> r.end <= rs[i].start
    ensures Ordered(rs[..k] + [r] + rs[k..])
  {
  }

  lemma InsertMembers(rs: seq<Range>, r: Range, x: Range)
    ensures x in Insert(rs, r) <==> x == r || x in rs
  {
    var k := Slot(rs, r.start);
    assert rs == rs[..k] + rs[k..];
  }

  /** Inserting an area that meets none keeps the list ordered. */
  lemma InsertOrdered(rs: seq<Range>, r: Range)
    requires Ordered(rs) && r.start < r.end && forall x <- rs :: !Meets(x, r.start, r.end)
    ensures Ordered(Insert(rs, r))
  {
    var k := Slot(rs, r.start);
    forall i | 0 <= i < |rs|
      ensures if i < k then rs[i].end <= r.start else r.end <= rs[i].start
    {
      assert rs[i] in rs;
      if k < i {
        assert rs[k].end <= rs[i].start && rs[k] in rs;
      }
    }
    OrderedInsertion(rs, k, r);
  }

  class VmArea {
    const start: nat
    const end: nat
    var next: VmArea?

    constructor (start: nat, end: nat)
      ensures this.start == start && this.end == end && next == null
    {
      this.start, this.end, next := start, end, null;
    }
  }

  lemma InsertedAt(s: seq<VmArea>, k: nat, x: VmArea)
    requires k <= |s| && NoDup(s) && x !in s
    ensures var t := s[..k] + [x] + s[k..];
            && |t| == |s| + 1 && t[k] == x && NoDup(t)
            && (forall j :: 0 <= j < k ==> t[j] == s[j]) && (forall j :: k < j < |t| ==> t[j] == s[j - 1])
  {
  }

  lemma RemovedAt(s: seq<VmArea>, k: nat)
    requires k < |s| && NoDup(s)
    ensures var t := s[..k] + s[k + 1..];
            && |t| == |s| - 1 && NoDup(t)
            && (forall j :: 0 <= j < k ==> t[j] == s[j]) && (forall j :: k <= j < |t| ==> t[j] == s[j + 1])
  {
  }

  ghost function RangesOf(areas: seq<VmArea>): seq<Range> {
    seq(|areas|, i requires 0 <= i < |areas| => Range(areas[i].start, areas[i].end))
  }

  class MemoryMap {
    var mmap: VmArea?
    ghost var areas: seq<VmArea>

    constructor ()
      ensures Valid() && Ranges() == []
    {
      mmap, areas := null, [];
    }

    ghost predicate Linked()
      reads this, areas
    {
      && NoDup(areas)
      && mmap == (if areas == [] then null else areas[0])
      && (areas != [] ==> areas[|areas| - 1].next == null)
      && (forall i {:trigger areas[i].next} :: 0 <= i < |areas| - 1 ==> areas[i].next == areas[i + 1])
    }

    ghost function Ranges(): seq<Range>
      reads this
    {
      RangesOf(areas)
    }

    ghost predicate Valid()
      reads this, areas
    {
      Linked() && Ordered(Ranges())
    }

    /** The scan of `insert_vm`; `prev` is the area whose `next` the source's pointer-to-pointer
        names, null for the list head. */
    method FindSlot(start: nat) returns (prev: VmArea?, i: VmArea?, ghost k: nat)
      requires Linked()
      ensures k == Slot(Ranges(), start) <= |areas|
      ensures i == (if k < |areas| then areas[k] else null) && prev == (if k == 0 then null else areas[k - 1])
    {
      ghost var rs := Ranges();
      prev, i, k := null, mmap, 0;
      assert rs[0..] == rs;
      while i != null
        invariant 0 <= k <= |areas|
        invariant i == if k < |areas| then areas[k] else null
        invariant prev == if k == 0 then null else areas[k - 1]
        invariant Slot(rs, start) == k + Slot(rs[k..], start)
        decreases |areas| - k
      {
        assert rs[k..][0] == Range(i.start, i.end) && rs[k..][1..] == rs[k + 1..];
        if i.start > start {
          break;
        }
        prev := i;
        i := i.next;
        k := k + 1;
      }
    }

    /** `area->next = i; *prev = area;` */
    method LinkIn(prev: VmArea?, i: VmArea?, area: VmArea, ghost k: nat)
      requires Linked() && area !in areas && k <= |areas|
      requires i == (if k < |areas| then areas[k] else null) && prev == (if k == 0 then null else areas[k - 1])
      modifies this, areas, area
      ensures Linked() && areas == old(areas)[..k] + [area] + old(areas)[k..]
      ensures Ranges() == old(Ranges())[..k] + [Range(area.start, area.end)] + old(Ranges())[k..]
    {
      area.next := i;
      if prev == null {
        mmap := area;
      } else {
        prev.next := area;
      }
      ghost var before := areas;
      areas := before[..k] + [area] + before[k..];
      InsertedAt(before, k, area);
    }

    /** `insert_vm`. */
    method InsertVm(area: VmArea)
      requires Linked() && area !in areas
      modifies this, areas, area
      ensures Linked() && Ranges() == Insert(old(Ranges()), Range(area.start, area.end))
    {
      var prev, i, k := FindSlot(area.start);
      LinkIn(prev, i, area, k);
    }

    /** `*npp = i->next; i->next = free;` */
    method Unlink(npp: VmArea?, i: VmArea, free: VmArea?, ghost k: nat)
      requires Linked() && k < |areas| && i == areas[k] && npp == (if k == 0 then null else areas[k - 1])
      modifies this, areas
      ensures Linked() && |areas| == |old(areas)| - 1
      ensures forall j :: 0 <= j < |areas| ==> areas[j] == old(areas)[if j < k then j else j + 1]
      ensures Ranges() == old(Ranges())[..k] + old(Ranges())[k + 1..]
    {
      if npp == null {
        mmap := i.next;
      } else {
        npp.next := i.next;
      }
      i.next := free;
      ghost var before := areas;
      areas := before[..k] + before[k + 1..];
      RemovedAt(before, k);
    }

    lemma Ends()
      requires Linked()
      ensures mmap == (if areas == [] then null else areas[0]) && |Ranges()| == |areas|
    {
    }

    lemma NextOf(k: nat)
      requires Linked() && k < |areas|
      ensures areas[k].next == (if k + 1 < |areas| then areas[k + 1] else null)
      ensures |Ranges()| == |areas| && Ranges()[k] == Range(areas[k].start, areas[k].end)
    {
    }

    /** The area list part of `do_munmap`. */
    method DoMunmap(addr: nat, len: nat)
      requires Linked() && addr < ADDRESS_LIMIT && len < ADDRESS_LIMIT
      modifies this, areas
      ensures Linked() && forall j :: 0 <= j < |areas| ==> areas[j] in old(areas)
      ensures Ranges() == if PageAlign(len) == 0 then old(Ranges()) else Outside(old(Ranges()), addr, (addr + len) % ADDRESS_LIMIT)
      ensures old(Valid()) && 0 < len <= ADDRESS_LIMIT - PAGE_SIZE && addr + len < ADDRESS_LIMIT ==>
        Valid() && forall r :: r in Ranges() <==> r in old(Ranges()) && !Shares(r, addr, addr + len)
    {
      ghost var rs, ordered := Ranges(), Valid();
      Unmap(addr, len);
      if ordered && 0 < len <= ADDRESS_LIMIT - PAGE_SIZE && addr + len < ADDRESS_LIMIT {
        UnmapExact(rs, addr, len);
      }
    }

    /** The loop of `do_munmap`. */
    method Unmap(addr: nat, len: nat)
      requires Linked() && addr < ADDRESS_LIMIT && len < ADDRESS_LIMIT
      modifies this, areas
      ensures Linked() && forall j :: 0 <= j < |areas| ==> areas[j] in old(areas)
      ensures Ranges() == if PageAlign(len) == 0 then old(Ranges()) else Outside(old(Ranges()), addr, (addr + len) % ADDRESS_LIMIT)
    {
      hide Linked, Ranges, Outside, PageAlign;
      var end := (addr + len) % ADDRESS_LIMIT;
      if PageAlign(len) == 0 {
        return;
      }
      Ends();
      OutsideNone(addr, end);
      ghost var rs, m, k, all := Ranges(), 0, 0, areas;
      var npp: VmArea?, i, free: VmArea? := null, mmap, null;
      assert rs[..0] == [] && rs[0..] == rs;
      while i != null
        invariant 0 <= m <= |rs| && 0 <= k <= |areas| && Linked()
        invariant k == |Outside(rs[..m], addr, end)| && Ranges() == Outside(rs[..m], addr, end) + rs[m..]
        invariant i == (if k < |areas| then areas[k] else null) && npp == (if k == 0 then null else areas[k - 1])
        invariant forall j :: 0 <= j < |areas| ==> areas[j] in all
        decreases |rs| - m
      {
        NextOf(k);
        UnmapTurn(rs, m, Outside(rs[..m], addr, end), Ranges());
        OutsideNext(rs, m, addr, end);
        if end <= i.start || addr >= i.end {
          npp := i;
          i := i.next;
          k := k + 1;
        } else {
          var next := i.next;
          Unlink(npp, i, free, k);
          free := i;
          i := next;
        }
        m := m + 1;
      }
      Ends();
      assert rs[..|rs|] == rs;
    }

    /** The area list part of `do_mmap`. The list stays ordered exactly when the new area does not
        reach the end of the 32-bit address space. */
    method DoMmap(addr: nat, len: nat)
      requires Valid() && addr < ADDRESS_LIMIT && len < ADDRESS_LIMIT
      modifies this, areas
      ensures Linked() && (PageAlign(len) == 0 ==> Ranges() == old(Ranges()))
      ensures PageAlign(len) != 0 ==>
        var end := (addr + PageAlign(len)) % ADDRESS_LIMIT;
        Ranges() == Insert(Outside(old(Ranges()), addr, end), Range(addr, end))
      ensures Valid() <==> PageAlign(len) == 0 || addr + PageAlign(len) < ADDRESS_LIMIT
      ensures PageAlign(len) != 0 && addr + PageAlign(len) < ADDRESS_LIMIT ==>
        var area := Range(addr, addr + PageAlign(len));
        forall r :: r in Ranges() <==> r == area || (r in old(Ranges()) && !Shares(r, area.start, area.end))
    {
      hide Linked, Ranges, Outside, Insert, Ordered, PageAlign, Shares;
      ghost var rs := Ranges();
      var size := PageAlign(len);
      if size == 0 {
        return;
      }
      AlignedAgain(len);
      DoMunmap(addr, size);
      assert Ranges() == Outside(rs, addr, (addr + size) % ADDRESS_LIMIT);
      var end := (addr + size) % ADDRESS_LIMIT;
      var area := new VmArea(addr, end);
      InsertVm(area);
      MapOrdered(rs, addr, size);
      if addr + size < ADDRESS_LIMIT {
        forall r
          ensures r in Ranges() <==> r == Range(addr, addr + size) || (r in rs && !Shares(r, addr, addr + size))
        {
          MapByAddress(rs, addr, size, r);
        }
      }
    }

    /** `dup_mmap`: a fresh list with the same areas. */
    method DupMmap() returns (copy: MemoryMap)
      requires Linked()
      ensures copy.Linked() && copy.Ranges() == Ranges() && fresh(copy) && forall j :: 0 <= j < |copy.areas| ==> fresh(copy.areas[j])
    {
      copy := new MemoryMap();
      var last: VmArea?, i := null, mmap;
      ghost var k := 0;
      while i != null
        invariant 0 <= k <= |areas| && i == (if k < |areas| then areas[k] else null)
        invariant fresh(copy) && copy.Linked() && |copy.areas| == k && forall j :: 0 <= j < k ==> fresh(copy.areas[j])
        invariant last == if k == 0 then null else copy.areas[k - 1]
        invariant copy.Ranges() == Ranges()[..k]
        decreases |areas| - k
      {
        var tmp := new VmArea(i.start, i.end);
        copy.LinkIn(last, null, tmp, k);
        last := tmp;
        i := i.next;
        k := k + 1;
      }
    }
  }

  lemma OutsideNone(addr: nat, end: nat)
    ensures Outside([], addr, end) == []
  {
  }

  lemma UnmapTurn(rs: seq<Range>, m: nat, kept: seq<Range>, now: seq<Range>)
    requires m <= |rs| && now == kept + rs[m..] && |kept| < |now|
    ensures m < |rs| && now[|kept|] == rs[m]
    ensures now == kept + [rs[m]] + rs[m + 1..] && now[..|kept|] + now[|kept| + 1..] == kept + [] + rs[m + 1..]
  {
  }

  lemma AlignedAgain(len: nat)
    requires len < ADDRESS_LIMIT
    ensures PageAlign(len) < ADDRESS_LIMIT && PageAlign(PageAlign(len)) == PageAlign(len)
  {
    var q := (len + PAGE_SIZE - 1) % ADDRESS_LIMIT / PAGE_SIZE;
    assert 0 <= q * PAGE_SIZE < ADDRESS_LIMIT;
    assert (q * PAGE_SIZE + PAGE_SIZE - 1) / PAGE_SIZE == q;
  }

  lemma MapOrdered(rs: seq<Range>, addr: nat, size: nat)
    requires Ordered(rs) && addr < ADDRESS_LIMIT && 0 < size < ADDRESS_LIMIT
    ensures var end := (addr + size) % ADDRESS_LIMIT;
            Ordered(Insert(Outside(rs, addr, end), Range(addr, end))) <==> addr + size < ADDRESS_LIMIT
  {
    var end := (addr + size) % ADDRESS_LIMIT;
    var out := Outside(rs, addr, end);
    OutsideOrdered(rs, addr, end);
    OutsideMembers(rs, addr, end);
    if addr + size < ADDRESS_LIMIT {
      InsertOrdered(out, Range(addr, end));
    } else {
      assert end == addr + size - ADDRESS_LIMIT < addr;
      assert Insert(out, Range(addr, end))[Slot(out, addr)] == Range(addr, end);
    }
  }

  // ---- Runs ----

  datatype Call = Map(addr: nat, len: nat) | Unmap(addr: nat, len: nat)

  /** 32-bit arguments; a mapping must end inside the address space. */
  predicate Fits(c: Call) {
    c.addr < ADDRESS_LIMIT && c.len < ADDRESS_LIMIT && (c.Map? ==> c.addr + PageAlign(c.len) < ADDRESS_LIMIT)
  }

  function Apply(rs: seq<Range>, c: Call): seq<Range> {
    if PageAlign(c.len) == 0 then rs
    else match c
      case Map(addr, len) =>
        var end := (addr + PageAlign(len)) % ADDRESS_LIMIT;
        Insert(Outside(rs, addr, end), Range(addr, end))
      case Unmap(addr, len) => Outside(rs, addr, (addr + len) % ADDRESS_LIMIT)
  }

  function Run(calls: seq<Call>): seq<Range> {
    if calls == [] then [] else Apply(Run(calls[..|calls| - 1]), calls[|calls| - 1])
  }

  lemma ApplyOrdered(rs: seq<Range>, c: Call)
    requires Ordered(rs) && Fits(c)
    ensures Ordered(Apply(rs, c))
  {
    hide PageAlign, Ordered, Outside, Insert;
    AlignedAgain(c.len);
    OutsideOrdered(rs, c.addr, (c.addr + c.len) % ADDRESS_LIMIT);
    if c.Map? && PageAlign(c.len) != 0 {
      MapOrdered(rs, c.addr, PageAlign(c.len));
    }
  }

  /** A mapping adds exactly its area to those that share no address with it. */
  lemma MapByAddress(rs: seq<Range>, addr: nat, size: nat, r: Range)
    requires Ordered(rs) && 0 < size && addr + size < ADDRESS_LIMIT
    ensures var area := Range(addr, addr + size);
            r in Insert(Outside(rs, addr, (addr + size) % ADDRESS_LIMIT), area)
            <==> r == area || (r in rs && !Shares(r, area.start, area.end))
  {
    hide Outside, Insert, Shares;
    UnmapByAddress(rs, addr, addr + size, r);
    InsertMembers(Outside(rs, addr, addr + size), Range(addr, addr + size), r);
  }

  lemma UnmapExact(rs: seq<Range>, addr: nat, len: nat)
    requires Ordered(rs) && 0 < len <= ADDRESS_LIMIT - PAGE_SIZE && addr + len < ADDRESS_LIMIT
    ensures PageAlign(len) != 0
    ensures var out := Outside(rs, addr, (addr + len) % ADDRESS_LIMIT);
            Ordered(out) && forall r :: r in out <==> r in rs && !Shares(r, addr, addr + len)
  {
    hide Outside, Shares, Ordered;
    PageAlignIs(len, 0);
    OutsideOrdered(rs, addr, addr + len);
    forall r
      ensures r in Outside(rs, addr, addr + len) <==> r in rs && !Shares(r, addr, addr + len)
    {
      UnmapByAddress(rs, addr, addr + len, r);
    }
  }

  /** The same for a call of a run. */
  lemma MapAdds(rs: seq<Range>, addr: nat, len: nat, r: Range)
    requires Ordered(rs) && Fits(Map(addr, len)) && PageAlign(len) != 0
    ensures var area := Range(addr, addr + PageAlign(len));
            r in Apply(rs, Map(addr, len)) <==> r == area || (r in rs && !Shares(r, area.start, area.end))
  {
    hide PageAlign, Outside, Insert, Shares;
    MapByAddress(rs, addr, PageAlign(len), r);
  }

  /** After any run of mappings and unmappings the areas are sorted and pairwise disjoint. */
  lemma {:induction false} RunOrdered(calls: seq<Call>)
    requires forall c <- calls :: Fits(c)
    ensures Ordered(Run(calls))
  {
    if calls != [] {
      RunOrdered(calls[..|calls| - 1]);
      ApplyOrdered(Run(calls[..|calls| - 1]), calls[|calls| - 1]);
    }
  }

  /** Mapping the last page of the address space records an area that ends at 0. */
  lemma LastPageExample()
    ensures Apply([], Map(0xffff_f000, 0x1000)) == [Range(0xffff_f000, 0)] && !Ordered(Apply([], Map(0xffff_f000, 0x1000)))
  {
    assert PageAlign(0x1000) == 0x1000;
    assert Outside([], 0xffff_f000, 0) == [];
    assert Apply([], Map(0xffff_f000, 0x1000))[0] == Range(0xffff_f000, 0);
  }
}

/** Setting up the free list from the memory map of the boot loader, and forming the first huge nodes. */
module Boot {
  import opened FreeList
  import opened Paging
  import opened Frames

  const MPENTRY_PADDR: nat := 0x7000
  const HUGE_BYTES: nat := SMALL_PAGES_IN_HUGE * PAGE_SIZE

  /** An entry of the memory map: a physical range and whether it is free. */
  datatype MmapEntry = MmapEntry(addr: nat, len: nat, isFree: bool) {
    function End(): nat { addr + len }
    predicate Holds(pa: int) { isFree && addr <= pa < End() }
  }

  /** Where the kernel and the header of its program file lie. */
  datatype Layout = Layout(kernelStart: nat, kernelEnd: nat, elfHeader: nat) {
    predicate Reserved(pa: nat) {
      pa == 0 || pa == MPENTRY_PADDR || kernelStart <= pa < kernelEnd || pa == elfHeader
    }
  }

  /** Free entries that are sorted, disjoint, and begin and end on page boundaries within n frames. */
  ghost predicate GoodMap(entries: seq<MmapEntry>, n: nat) {
    && (forall i :: 0 <= i < |entries| && entries[i].isFree ==>
          entries[i].addr % PAGE_SIZE == 0 && entries[i].len % PAGE_SIZE == 0 && entries[i].End() <= n * PAGE_SIZE)
    && (forall i, j :: 0 <= i < j < |entries| && entries[i].isFree && entries[j].isFree ==>
          entries[i].End() <= entries[j].addr)
  }

  /** Frame f lies in one of the first k free entries. */
  ghost predicate InEntries(entries: seq<MmapEntry>, k: nat, f: nat)
    requires k <= |entries|
  {
    exists i :: 0 <= i < k && entries[i].Holds(f * PAGE_SIZE)
  }

  /** A frame the allocator may hand out. */
  ghost predicate Usable(entries: seq<MmapEntry>, layout: Layout, f: nat) {
    InEntries(entries, |entries|, f) && !layout.Reserved(f * PAGE_SIZE)
  }

  ghost function UsableFrames(entries: seq<MmapEntry>, layout: Layout, n: nat): set<nat> {
    set f: nat | f < n && Usable(entries, layout, f)
  }

  /** The frames the allocator never hands out, as blocks. */
  ghost function ReservedNodes(entries: seq<MmapEntry>, layout: Layout, n: nat): set<Node> {
    set f: nat | f < n && !Usable(entries, layout, f) :: Node(f, false)
  }

  /** What is usable, spelled out: frames of free entries, except frame 0, the start-up code of the other processors,
      the kernel, and the header of its program file. */
  lemma UsableMeans(entries: seq<MmapEntry>, layout: Layout, f: nat)
    ensures Usable(entries, layout, f) <==>
      && (exists i :: 0 <= i < |entries| && entries[i].isFree &&
            entries[i].addr <= f * 4096 < entries[i].addr + entries[i].len)
      && f != 0 && f * 4096 != 0x7000 && f * 4096 != layout.elfHeader
      && !(layout.kernelStart <= f * 4096 < layout.kernelEnd)
  {
    if i :| 0 <= i < |entries| && entries[i].isFree && entries[i].addr <= f * 4096 < entries[i].addr + entries[i].len {
      assert entries[i].Holds(f * PAGE_SIZE);
    }
    if InEntries(entries, |entries|, f) {
      var i :| 0 <= i < |entries| && entries[i].Holds(f * PAGE_SIZE);
    }
  }

  /** The nodes stand in descending order of their frames. */
  ghost predicate Falling(free: seq<Node>) {
    forall i, j :: 0 <= i < j < |free| ==> free[i].frame > free[j].frame
  }

  lemma FallsOn(free: seq<Node>, f: nat)
    requires Falling(free) && forall nd :: nd in free ==> nd.frame < f
    ensures Falling([Node(f, false)] + free)
  {
  }

  lemma FallsWithout(free: seq<Node>, k: nat)
    requires k < |free|
    ensures Falling(free) ==> Falling(RemoveAt(free, k))
  {
  }

  lemma FallsReplaced(free: seq<Node>, k: nat)
    requires k < |free|
    ensures Falling(free) ==> Falling(free[k := Node(free[k].frame, true)])
  {
  }

  /** All frames are allocated, one by one, and nothing refers to them. */
  ghost predicate AllReserved(pm: PhysicalMemory)
    reads pm, pm.pages
  {
    && pm.Valid() && pm.free == []
    && (forall f: nat :: f < pm.npages ==> Node(f, false) in pm.owned)
    && (forall f :: 0 <= f < pm.npages ==> pm.pages[f].ppRef == 0)
  }

  /** Puts the frames of the free entries on the list, except the reserved ones. */
  method FillFreeList(pm: PhysicalMemory, entries: seq<MmapEntry>, layout: Layout)
    requires AllReserved(pm) && GoodMap(entries, pm.npages)
    modifies pm`pageFreeList, pm`free, pm`owned, pm.pages
    ensures pm.Valid()
    ensures forall nd :: nd in pm.free <==> !nd.huge && Usable(entries, layout, nd.frame)
    ensures forall nd :: nd in pm.free <==>
      && !nd.huge
      && (exists i :: 0 <= i < |entries| && entries[i].isFree &&
            entries[i].addr <= nd.frame * 4096 < entries[i].addr + entries[i].len)
      && nd.frame != 0 && nd.frame * 4096 != 0x7000 && nd.frame * 4096 != layout.elfHeader
      && !(layout.kernelStart <= nd.frame * 4096 < layout.kernelEnd)
    ensures Falling(pm.free)
    ensures forall f: nat :: f < pm.npages && Node(f, false) !in pm.free ==> Node(f, false) in pm.owned
    ensures forall f :: 0 <= f < pm.npages ==> pm.pages[f].ppRef == 0
  {
    hide Partition, Owns;
    pm.pageFreeList := NIL;
    hide Listed;
    var i := 0;
    while i < |entries|
      invariant 0 <= i <= |entries| && pm.Valid() && Falling(pm.free)
      invariant forall nd :: nd in pm.free <==>
        !nd.huge && InEntries(entries, i, nd.frame) && !layout.Reserved(nd.frame * PAGE_SIZE)
      invariant forall f: nat :: f < pm.npages && Node(f, false) !in pm.free ==> Node(f, false) in pm.owned
      invariant forall f :: 0 <= f < pm.npages ==> pm.pages[f].ppRef == 0
    {
      if entries[i].isFree {
        InitEntry(pm, entries, layout, i);
      } else {
        assert forall f :: InEntries(entries, i + 1, f) <==> InEntries(entries, i, f);
      }
      i := i + 1;
    }
    ListHolds(pm.free, entries, layout);
  }

  lemma ListHolds(free: seq<Node>, entries: seq<MmapEntry>, layout: Layout)
    requires forall nd :: nd in free <==>
      !nd.huge && InEntries(entries, |entries|, nd.frame) && !layout.Reserved(nd.frame * PAGE_SIZE)
    ensures forall nd :: nd in free <==> !nd.huge && Usable(entries, layout, nd.frame)
    ensures forall nd :: nd in free <==>
      && !nd.huge
      && (exists i :: 0 <= i < |entries| && entries[i].isFree &&
            entries[i].addr <= nd.frame * 4096 < entries[i].addr + entries[i].len)
      && nd.frame != 0 && nd.frame * 4096 != 0x7000 && nd.frame * 4096 != layout.elfHeader
      && !(layout.kernelStart <= nd.frame * 4096 < layout.kernelEnd)
  {
    assert forall nd :: nd in free <==> !nd.huge && Usable(entries, layout, nd.frame);
    hide Usable;
    forall nd: Node
      ensures nd in free <==>
        && !nd.huge
        && (exists i :: 0 <= i < |entries| && entries[i].isFree &&
              entries[i].addr <= nd.frame * 4096 < entries[i].addr + entries[i].len)
        && nd.frame != 0 && nd.frame * 4096 != 0x7000 && nd.frame * 4096 != layout.elfHeader
        && !(layout.kernelStart <= nd.frame * 4096 < layout.kernelEnd)
    {
      UsableMeans(entries, layout, nd.frame);
    }
  }

  /** Puts the frames of one free entry on the list. */
  method InitEntry(pm: PhysicalMemory, entries: seq<MmapEntry>, layout: Layout, i: nat)
    requires pm.Valid() && GoodMap(entries, pm.npages) && i < |entries| && entries[i].isFree && Falling(pm.free)
    requires forall nd :: nd in pm.free <==>
      !nd.huge && InEntries(entries, i, nd.frame) && !layout.Reserved(nd.frame * PAGE_SIZE)
    requires forall f: nat :: f < pm.npages && Node(f, false) !in pm.free ==> Node(f, false) in pm.owned
    requires forall f :: 0 <= f < pm.npages ==> pm.pages[f].ppRef == 0
    modifies pm`pageFreeList, pm`free, pm`owned, pm.pages
    ensures pm.Valid() && Falling(pm.free)
    ensures forall nd :: nd in pm.free <==>
      !nd.huge && InEntries(entries, i + 1, nd.frame) && !layout.Reserved(nd.frame * PAGE_SIZE)
    ensures forall f: nat :: f < pm.npages && Node(f, false) !in pm.free ==> Node(f, false) in pm.owned
    ensures forall f :: 0 <= f < pm.npages ==> pm.pages[f].ppRef == 0
  {
    hide Partition, Listed, Owns;
    var entry := entries[i];
    var pa := entry.addr;
    while pa < entry.addr + entry.len
      invariant entry.addr <= pa <= entry.End() && pa % PAGE_SIZE == 0 && pm.Valid() && Falling(pm.free)
      invariant forall nd :: nd in pm.free <==>
        !nd.huge && ReachedBy(entries, i, pa, nd.frame) && !layout.Reserved(nd.frame * PAGE_SIZE)
      invariant forall f: nat :: f < pm.npages && Node(f, false) !in pm.free ==> Node(f, false) in pm.owned
      invariant forall f :: 0 <= f < pm.npages ==> pm.pages[f].ppRef == 0
    {
      var page := pa / PAGE_SIZE;
      NextFrame(entries, i, pa, pm.npages);
      if !layout.Reserved(pa) {
        FallsOn(pm.free, page);
        PutOnList(pm, page);
      }
      pa := pa + PAGE_SIZE;
    }
    assert forall f :: InEntries(entries, i + 1, f) <==> ReachedBy(entries, i, pa, f);
  }

  /** Links a reserved frame into the list. */
  method PutOnList(pm: PhysicalMemory, page: nat)
    requires pm.Valid() && page < pm.npages && Node(page, false) in pm.owned && pm.pages[page].ppRef == 0
    modifies pm`pageFreeList, pm`free, pm`owned, pm.pages
    ensures pm.Valid()
    ensures pm.free == [Node(page, false)] + old(pm.free) && pm.owned == old(pm.owned) - {Node(page, false)}
    ensures forall f :: 0 <= f < pm.npages ==> pm.pages[f].ppRef == old(pm.pages[f].ppRef)
  {
    BlockState(pm.npages, pm.pages[..], pm.pageFreeList, pm.free, pm.owned, Node(page, false));
    OneNodePerFrame(pm.npages, pm.free, pm.owned, Node(page, false));
    GiveKeepsPartition(pm.npages, pm.free, pm.owned, Node(page, false));
    pm.Push(page);
    OwnsAfterGive(old(pm.pages[..]), pm.owned, Node(page, false), pm.pages[..]);
    pm.owned := pm.owned - {Node(page, false)};
  }

  /** Frame f lies in an entry before i, or in entry i below pa. */
  ghost predicate ReachedBy(entries: seq<MmapEntry>, i: nat, pa: nat, f: nat)
    requires i < |entries|
  {
    InEntries(entries, i, f) || (entries[i].Holds(f * PAGE_SIZE) && f * PAGE_SIZE < pa)
  }

  lemma NextFrame(entries: seq<MmapEntry>, i: nat, pa: nat, n: nat)
    requires GoodMap(entries, n) && i < |entries| && entries[i].Holds(pa) && pa % PAGE_SIZE == 0
    ensures pa / PAGE_SIZE < n && !ReachedBy(entries, i, pa, pa / PAGE_SIZE)
    ensures forall f: nat :: ReachedBy(entries, i, pa, f) ==> f < pa / PAGE_SIZE
    ensures forall f :: ReachedBy(entries, i, pa + PAGE_SIZE, f) <==>
      ReachedBy(entries, i, pa, f) || f == pa / PAGE_SIZE
  {
  }

  // ---- Forming huge nodes ----

  function Base(f: nat): nat { f - f % SMALL_PAGES_IN_HUGE }

  ghost predicate AllIn(avail: set<nat>, from: nat, to: nat) {
    forall f :: from <= f < to ==> f in avail
  }

  /** Of the available frames, those of the merged blocks are on the list as huge nodes and all others as
      small ones. */
  ghost predicate Formed(free: seq<Node>, avail: set<nat>, merged: set<nat>) {
    && (forall nd :: nd in free <==>
          if nd.huge then nd.frame in merged else nd.frame in avail && Base(nd.frame) !in merged)
    && (forall b :: b in merged ==> b % SMALL_PAGES_IN_HUGE == 0 && AllIn(avail, b, b + SMALL_PAGES_IN_HUGE))
  }

  /** The aligned block at b lies wholly in entry e, below frame p. */
  ghost predicate WithinEntry(e: MmapEntry, b: nat, p: nat) {
    && e.isFree && e.addr <= b * PAGE_SIZE
    && (b + SMALL_PAGES_IN_HUGE) * PAGE_SIZE <= e.End() && b + SMALL_PAGES_IN_HUGE <= p
  }

  /** Blocks that lie wholly in one of the first k entries. */
  ghost predicate WithinOne(entries: seq<MmapEntry>, k: nat, b: nat)
    requires k <= |entries|
  {
    exists i :: 0 <= i < k && WithinEntry(entries[i], b, entries[i].End() / PAGE_SIZE)
  }

  ghost predicate Whole(avail: set<nat>, b: nat) {
    b % SMALL_PAGES_IN_HUGE == 0 && AllIn(avail, b, b + SMALL_PAGES_IN_HUGE)
  }

  /** The merged blocks are those that are available as a whole and lie in one of the first k entries, or
      in entry k below frame p. */
  ghost predicate MergedUpTo(entries: seq<MmapEntry>, k: nat, p: nat, avail: set<nat>, merged: set<nat>)
    requires k < |entries|
  {
    forall b :: b in merged <==> Whole(avail, b) && (WithinOne(entries, k, b) || WithinEntry(entries[k], b, p))
  }

  /** The state of the scan in front of frame p of an entry that begins at frame a: whether a candidate
      block is being followed, and where it starts. */
  ghost predicate Scan(avail: set<nat>, a: nat, p: nat, start: bool, s: nat) {
    && a <= p
    && (p == a && start ==> s == 0 && a >= 2)
    && (p > a && start ==> s == Base(p - 1) && a <= s && AllIn(avail, s, p))
    && (p > a && !start ==> Base(p - 1) < a || !AllIn(avail, Base(p - 1), p))
  }

  /** One step of the scan, with the tests of the original. */
  function StartBefore(start: bool, p: nat): bool {
    start || p % SMALL_PAGES_IN_HUGE == 0
  }

  lemma BaseStep(p: nat)
    ensures Base(p) <= p < Base(p) + SMALL_PAGES_IN_HUGE && Base(p) % SMALL_PAGES_IN_HUGE == 0
    ensures if p % SMALL_PAGES_IN_HUGE == 0 then Base(p) == p else Base(p) == Base(p - 1)
    ensures p % SMALL_PAGES_IN_HUGE == SMALL_PAGES_IN_HUGE - 1 <==> p == Base(p) + SMALL_PAGES_IN_HUGE - 1
    ensures p > 0 ==> Base(p - 1) <= p - 1
  {
  }

  lemma AllInStep(avail: set<nat>, from: nat, p: nat)
    requires from <= p
    ensures AllIn(avail, from, p + 1) <==> AllIn(avail, from, p) && p in avail
    ensures AllIn(avail, p, p)
  {
  }

  lemma ScanStep(avail: set<nat>, a: nat, p: nat, start: bool, s: nat)
    requires Scan(avail, a, p, start, s) && 0 !in avail
    ensures var s' := if p % SMALL_PAGES_IN_HUGE == 0 then p else s;
      var start' := StartBefore(start, p) && p in avail && (s' == p || p > a || p == 1);
      && Scan(avail, a, p + 1, start', s')
      && (start' && p == s' + SMALL_PAGES_IN_HUGE - 1 <==>
            p % SMALL_PAGES_IN_HUGE == SMALL_PAGES_IN_HUGE - 1 && a <= Base(p) && Whole(avail, Base(p)))
  {
    var s' := if p % SMALL_PAGES_IN_HUGE == 0 then p else s;
    var start' := StartBefore(start, p) && p in avail && (s' == p || p > a || p == 1);
    BaseStep(p);
    AllInStep(avail, Base(p), p);
    hide Base, AllIn;
  }

  /** Takes the frames of a block behind its base off the list and makes the base a huge node. */
  method MergeBlock(pm: PhysicalMemory, base: nat, ghost avail: set<nat>, ghost merged: set<nat>)
    requires pm.Valid() && Formed(pm.free, avail, merged) && Whole(avail, base) && base !in merged
    modifies pm`pageFreeList, pm`free, pm.pages
    ensures pm.Valid() && Formed(pm.free, avail, merged + {base}) && (old(Falling(pm.free)) ==> Falling(pm.free))
    ensures forall f :: 0 <= f < pm.npages ==> pm.pages[f].ppRef == old(pm.pages[f].ppRef)
  {
    hide Partition, Listed, Owns, Falling, RemoveAt;
    ghost var free0 := pm.free;
    SmallBlock(free0, avail, merged, base);
    var m := base + 1;
    while m < base + SMALL_PAGES_IN_HUGE
      invariant base + 1 <= m <= base + SMALL_PAGES_IN_HUGE
      invariant Listed(pm.pages[..], pm.pageFreeList, pm.free) && (Falling(free0) ==> Falling(pm.free))
      invariant forall nd :: nd in pm.free <==> nd in free0 && !(!nd.huge && base < nd.frame < m)
      invariant forall f :: 0 <= f < pm.pages.Length ==>
        pm.pages[f].ppRef == old(pm.pages[f].ppRef) && pm.pages[f].isHuge == old(pm.pages[f].isHuge)
    {
      ghost var k :| 0 <= k < |pm.free| && pm.free[k] == Node(m, false);
      ghost var free := pm.free;
      ListIsDistinct(pm.pages[..], pm.pageFreeList, free);
      pm.Unlink(m, k);
      InRemoved(free, k);
      FallsWithout(free, k);
      m := m + 1;
    }
    ghost var k :| 0 <= k < |pm.free| && pm.free[k] == Node(base, false);
    ghost var free := pm.free;
    ListIsDistinct(pm.pages[..], pm.pageFreeList, free);
    pm.BecomeHuge(base, k);
    FallsReplaced(free, k);
    InReplaced(free, k, Node(base, true));
    ListIsDistinct(pm.pages[..], pm.pageFreeList, pm.free);
    MergeAnywhereKeepsPartition(pm.npages, free0, pm.free, pm.owned, base);
    OwnsAfterBoot(pm.npages, free0, pm.owned, old(pm.pages[..]), base, pm.pages[..]);
    FormedMore(free0, pm.free, avail, merged, base);
  }

  lemma SmallBlock(free: seq<Node>, avail: set<nat>, merged: set<nat>, base: nat)
    requires Formed(free, avail, merged) && Whole(avail, base) && base !in merged
    ensures forall f :: base <= f < base + SMALL_PAGES_IN_HUGE ==> Node(f, false) in free
  {
    forall f | base <= f < base + SMALL_PAGES_IN_HUGE ensures Node(f, false) in free {
      assert Base(f) == base && f in avail;
    }
  }

  lemma ListIsDistinct(ps: seq<PageInfo>, head: int, free: seq<Node>)
    requires Listed(ps, head, free)
    ensures forall i, j :: 0 <= i < j < |free| ==> free[i] != free[j]
  {
    assert DistinctFrames(free);
  }

  lemma InRemoved(free: seq<Node>, k: nat)
    requires k < |free| && forall i, j :: 0 <= i < j < |free| ==> free[i] != free[j]
    ensures forall nd :: nd in RemoveAt(free, k) <==> nd in free && nd != free[k]
  {
    forall nd ensures nd in RemoveAt(free, k) <==> nd in free && nd != free[k] {
      if nd in free && nd != free[k] {
        var i :| 0 <= i < |free| && free[i] == nd;
        assert RemoveAt(free, k)[if i < k then i else i - 1] == nd;
      }
    }
  }

  lemma InReplaced(free: seq<Node>, k: nat, put: Node)
    requires k < |free| && forall i, j :: 0 <= i < j < |free| ==> free[i] != free[j]
    ensures forall nd :: nd in free[k := put] <==> nd == put || (nd in free && nd != free[k])
  {
    forall nd ensures nd in free[k := put] <==> nd == put || (nd in free && nd != free[k]) {
      assert free[k := put][k] == put;
      if nd in free && nd != free[k] {
        var i :| 0 <= i < |free| && free[i] == nd;
        assert free[k := put][i] == nd;
      }
    }
  }

  lemma OwnsAfterBoot(n: nat, free: seq<Node>, owned: set<Node>, ps: seq<PageInfo>, base: nat, ps': seq<PageInfo>)
    requires Partition(n, free, owned) && Owns(ps, owned) && |ps'| == |ps| && Node(base, false) in free
    requires forall f :: 0 <= f < |ps| ==> ps'[f].ppRef == ps[f].ppRef
    requires forall f :: 0 <= f < |ps| && f != base ==> ps'[f].isHuge == ps[f].isHuge
    ensures Owns(ps', owned)
  {
    assert IsBlock(free, owned, Node(base, false));
    forall nd | nd in owned ensures nd.frame < |ps'| && ps'[nd.frame].isHuge == nd.huge {
      assert IsBlock(free, owned, nd);
    }
  }

  lemma FormedMore(free: seq<Node>, free': seq<Node>, avail: set<nat>, merged: set<nat>, base: nat)
    requires Formed(free, avail, merged) && Whole(avail, base) && base !in merged
    requires forall nd :: nd in free' <==>
      || nd == Node(base, true)
      || (nd in free && !(!nd.huge && base < nd.frame < base + SMALL_PAGES_IN_HUGE) && nd != Node(base, false))
    ensures Formed(free', avail, merged + {base})
  {
    forall nd ensures nd in free' <==>
      if nd.huge then nd.frame in merged + {base} else nd.frame in avail && Base(nd.frame) !in merged + {base}
    {
      assert Base(nd.frame) == base <==> base <= nd.frame < base + SMALL_PAGES_IN_HUGE;
    }
  }

  lemma EntryStart(entries: seq<MmapEntry>, i: nat, avail: set<nat>, merged: set<nat>, start: bool)
    requires i < |entries| && MergedUpTo(entries, i, 0, avail, merged)
    requires start ==> entries[i].addr >= 2 * PAGE_SIZE
    ensures var a := entries[i].addr / PAGE_SIZE;
      Scan(avail, a, a, start, 0) && MergedUpTo(entries, i, a, avail, merged)
  {
  }

  lemma EntryEnd(avail: set<nat>, a: nat, p: nat, start: bool, s: nat)
    requires Scan(avail, a, p, start, s) && 0 !in avail
    ensures start ==> p >= 2
  {
    assert p > a && start ==> AllIn(avail, s, p) && s <= p - 1 && p - 1 in avail;
  }

  /** A frame of the entry being scanned has not been merged yet. */
  lemma FrameInEntry(entries: seq<MmapEntry>, i: nat, pa: nat, n: nat, avail: set<nat>, merged: set<nat>)
    requires GoodMap(entries, n) && i < |entries| && entries[i].Holds(pa) && pa % PAGE_SIZE == 0
    requires MergedUpTo(entries, i, pa / PAGE_SIZE, avail, merged)
    ensures pa / PAGE_SIZE < n && Base(pa / PAGE_SIZE) !in merged && pa / PAGE_SIZE !in merged
  {
    var p := pa / PAGE_SIZE;
    forall b | b == p || b == Base(p) ensures b !in merged {
      forall k | 0 <= k < i ensures !WithinEntry(entries[k], b, entries[k].End() / PAGE_SIZE) {
        assert entries[k].isFree ==> entries[k].End() <= entries[i].addr;
      }
    }
  }

  lemma AvailableFrame(n: nat, ps: seq<PageInfo>, head: int, free: seq<Node>, owned: set<Node>,
                       avail: set<nat>, merged: set<nat>, p: nat)
    requires Partition(n, free, owned) && Listed(ps, head, free) && |ps| == n
    requires Formed(free, avail, merged) && p < n && Base(p) !in merged && p !in merged
    ensures ps[p].isAvailable <==> p in avail
  {
    assert Node(p, false) in free <==> p in avail;
    assert Node(p, true) !in free;
    if Node(p, false) in free {
      var i :| 0 <= i < |free| && free[i] == Node(p, false);
      assert Threaded(ps, free, i);
    }
  }

  /** One frame further, the block that ends there may be complete. */
  lemma NextMerged(entries: seq<MmapEntry>, i: nat, p: nat, avail: set<nat>, merged: set<nat>)
    requires i < |entries| && MergedUpTo(entries, i, p, avail, merged) && entries[i].isFree
    requires entries[i].addr % PAGE_SIZE == 0 && entries[i].addr <= p * PAGE_SIZE &&
      (p + 1) * PAGE_SIZE <= entries[i].End()
    ensures var done := p % SMALL_PAGES_IN_HUGE == SMALL_PAGES_IN_HUGE - 1 &&
      entries[i].addr / PAGE_SIZE <= Base(p) && Whole(avail, Base(p));
      MergedUpTo(entries, i, p + 1, avail, if done then merged + {Base(p)} else merged)
  {
    forall b: nat | b % SMALL_PAGES_IN_HUGE == 0
      ensures WithinEntry(entries[i], b, p + 1) <==>
        (WithinEntry(entries[i], b, p) ||
         (p % SMALL_PAGES_IN_HUGE == SMALL_PAGES_IN_HUGE - 1 && entries[i].addr / PAGE_SIZE <= b && b == Base(p)))
    {
    }
  }

  /** The scan at one frame: starts or gives up a candidate, and merges it when it is complete. */
  method ScanFrame(pm: PhysicalMemory, entries: seq<MmapEntry>, i: nat, pa: nat, prev: nat, start0: bool,
                   startHuge0: nat, ghost avail: set<nat>, ghost merged0: set<nat>)
    returns (start: bool, startHuge: nat, ghost merged: set<nat>)
    requires pm.Valid() && GoodMap(entries, pm.npages) && i < |entries| && entries[i].Holds(pa) && pa % PAGE_SIZE == 0
    requires startHuge0 % PAGE_SIZE == 0 && prev == (if pa == entries[i].addr then 0 else pa - PAGE_SIZE)
    requires Formed(pm.free, avail, merged0) && MergedUpTo(entries, i, pa / PAGE_SIZE, avail, merged0) && 0 !in avail
    requires Scan(avail, entries[i].addr / PAGE_SIZE, pa / PAGE_SIZE, start0, startHuge0 / PAGE_SIZE)
    modifies pm`pageFreeList, pm`free, pm.pages
    ensures pm.Valid() && Formed(pm.free, avail, merged) && (old(Falling(pm.free)) ==> Falling(pm.free))
    ensures MergedUpTo(entries, i, pa / PAGE_SIZE + 1, avail, merged)
    ensures startHuge % PAGE_SIZE == 0
    ensures Scan(avail, entries[i].addr / PAGE_SIZE, pa / PAGE_SIZE + 1, start, startHuge / PAGE_SIZE)
    ensures forall f :: 0 <= f < pm.npages ==> pm.pages[f].ppRef == old(pm.pages[f].ppRef)
  {
    hide Partition, Listed, Owns, Formed, MergedUpTo, Scan, AllIn, Base, Whole;
    ghost var a, p, s := entries[i].addr / PAGE_SIZE, pa / PAGE_SIZE, startHuge0 / PAGE_SIZE;
    start, startHuge, merged := start0, startHuge0, merged0;
    FrameInEntry(entries, i, pa, pm.npages, avail, merged);
    ScanStep(avail, a, p, start, s);
    AvailableFrame(pm.npages, pm.pages[..], pm.pageFreeList, pm.free, pm.owned, avail, merged, p);
    FrameNumbers(entries[i].addr, pa, startHuge0);
    BlockEnds(p);
    hide GoodMap;
    if pa % HUGE_BYTES == 0 {
      start := true;
      startHuge := pa;
    }
    var page := pa / PAGE_SIZE;
    if start {
      if !pm.pages[page].isAvailable || (startHuge != pa && pa != prev + PAGE_SIZE) {
        start := false;
      }
    }
    NextMerged(entries, i, p, avail, merged);
    if start && pa == startHuge + (SMALL_PAGES_IN_HUGE - 1) * PAGE_SIZE {
      MergeBlock(pm, startHuge / PAGE_SIZE, avail, merged);
      merged := merged + {Base(p)};
    }
  }

  /** Tests on addresses are tests on frame numbers. */
  lemma FrameNumbers(addr: nat, pa: nat, startHuge: nat)
    requires addr % PAGE_SIZE == 0 && pa % PAGE_SIZE == 0 && startHuge % PAGE_SIZE == 0 && addr <= pa
    ensures var p, s := pa / PAGE_SIZE, startHuge / PAGE_SIZE;
      && pa == p * PAGE_SIZE && startHuge == s * PAGE_SIZE && addr / PAGE_SIZE <= p
      && (pa % HUGE_BYTES == 0 <==> p % SMALL_PAGES_IN_HUGE == 0)
      && (pa > addr <==> p > addr / PAGE_SIZE)
      && (pa == startHuge + (SMALL_PAGES_IN_HUGE - 1) * PAGE_SIZE <==> p == s + SMALL_PAGES_IN_HUGE - 1)
  {
  }

  lemma BlockEnds(p: nat)
    ensures p % SMALL_PAGES_IN_HUGE == SMALL_PAGES_IN_HUGE - 1 ==> Base(p) == p - (SMALL_PAGES_IN_HUGE - 1)
  {
  }

  /** Looks for whole blocks in one free entry and merges them. */
  method MergeEntry(pm: PhysicalMemory, entries: seq<MmapEntry>, i: nat, start0: bool, ghost avail: set<nat>,
                    ghost merged0: set<nat>)
    returns (start: bool, ghost merged: set<nat>)
    requires pm.Valid() && GoodMap(entries, pm.npages) && i < |entries| && entries[i].isFree
    requires Formed(pm.free, avail, merged0) && MergedUpTo(entries, i, 0, avail, merged0) && 0 !in avail
    requires start0 ==> entries[i].addr >= 2 * PAGE_SIZE
    modifies pm`pageFreeList, pm`free, pm.pages
    ensures pm.Valid() && Formed(pm.free, avail, merged) && (old(Falling(pm.free)) ==> Falling(pm.free))
    ensures MergedUpTo(entries, i, entries[i].End() / PAGE_SIZE, avail, merged)
    ensures start ==> entries[i].End() >= 2 * PAGE_SIZE
    ensures forall f :: 0 <= f < pm.npages ==> pm.pages[f].ppRef == old(pm.pages[f].ppRef)
  {
    hide Partition, Listed, Owns, Formed, MergedUpTo, Scan;
    var entry := entries[i];
    var prev: nat, startHuge: nat := 0, 0;
    start, merged := start0, merged0;
    ghost var a := entry.addr / PAGE_SIZE;
    var pa := entry.addr;
    EntryStart(entries, i, avail, merged, start);
    while pa < entry.addr + entry.len
      invariant entry.addr <= pa <= entry.End() && pa % PAGE_SIZE == 0 && startHuge % PAGE_SIZE == 0
      invariant prev == if pa == entry.addr then 0 else pa - PAGE_SIZE
      invariant pm.Valid() && Formed(pm.free, avail, merged) && (old(Falling(pm.free)) ==> Falling(pm.free))
      invariant MergedUpTo(entries, i, pa / PAGE_SIZE, avail, merged)
      invariant Scan(avail, a, pa / PAGE_SIZE, start, startHuge / PAGE_SIZE)
      invariant forall f :: 0 <= f < pm.npages ==> pm.pages[f].ppRef == old(pm.pages[f].ppRef)
    {
      if entry.len < SMALL_PAGES_IN_HUGE {
        break;
      }
      start, startHuge, merged := ScanFrame(pm, entries, i, pa, prev, start, startHuge, avail, merged);
      prev := pa;
      pa := pa + PAGE_SIZE;
    }
    EntryEnd(avail, a, pa / PAGE_SIZE, start, startHuge / PAGE_SIZE);
  }

  /** Forms a huge node of every aligned block that lies wholly in one free entry and is available as a
      whole, and of no other. */
  method InitialMerge(pm: PhysicalMemory, entries: seq<MmapEntry>, ghost avail: set<nat>)
    returns (ghost merged: set<nat>)
    requires pm.Valid() && GoodMap(entries, pm.npages)
    requires (forall nd :: nd in pm.free <==> !nd.huge && nd.frame in avail) && 0 !in avail
    modifies pm`pageFreeList, pm`free, pm.pages
    ensures pm.Valid() && Formed(pm.free, avail, merged) && (old(Falling(pm.free)) ==> Falling(pm.free))
    ensures forall b :: b in merged <==> Whole(avail, b) && WithinOne(entries, |entries|, b)
    ensures forall f :: 0 <= f < pm.npages ==> pm.pages[f].ppRef == old(pm.pages[f].ppRef)
  {
    hide Partition, Listed, Owns, WithinEntry;
    merged := {};
    var start := false;
    var i := 0;
    while i < |entries|
      invariant 0 <= i <= |entries| && pm.Valid() && Formed(pm.free, avail, merged)
      invariant old(Falling(pm.free)) ==> Falling(pm.free)
      invariant forall b :: b in merged <==> Whole(avail, b) && WithinOne(entries, i, b)
      invariant start ==> forall j :: i <= j < |entries| && entries[j].isFree ==> entries[j].addr >= 2 * PAGE_SIZE
      invariant forall f :: 0 <= f < pm.npages ==> pm.pages[f].ppRef == old(pm.pages[f].ppRef)
    {
      NothingBelowZero(entries[i]);
      if entries[i].isFree {
        ghost var before := merged;
        start, merged := MergeEntry(pm, entries, i, start, avail, before);
      } else {
        NotFree(entries[i]);
      }
      OneMoreEntry(entries, i);
      i := i + 1;
    }
  }

  /** After boot the free list covers exactly the usable frames, and it holds a huge node for exactly the aligned
      blocks of 512 usable frames that lie wholly in one free entry. */
  method PageInit(pm: PhysicalMemory, entries: seq<MmapEntry>, layout: Layout)
    requires AllReserved(pm) && GoodMap(entries, pm.npages)
    modifies pm`pageFreeList, pm`free, pm`owned, pm.pages
    ensures pm.Valid()
    ensures forall f: nat :: Usable(entries, layout, f) <==> exists nd :: nd in pm.free && nd.Covers(f)
    ensures forall f: nat :: CoveredBy(pm.free, f) <==>
      && (exists i :: 0 <= i < |entries| && entries[i].isFree &&
            entries[i].addr <= f * 4096 < entries[i].addr + entries[i].len)
      && f != 0 && f * 4096 != 0x7000 && f * 4096 != layout.elfHeader
      && !(layout.kernelStart <= f * 4096 < layout.kernelEnd)
    ensures Weight(pm.free) == |UsableFrames(entries, layout, pm.npages)|
    ensures pm.owned == ReservedNodes(entries, layout, pm.npages)
    ensures forall b: nat :: Node(b, true) in pm.free <==>
      && b % 512 == 0
      && (exists i :: 0 <= i < |entries| && entries[i].isFree && entries[i].addr <= b * 4096 &&
            (b + 512) * 4096 <= entries[i].addr + entries[i].len)
      && forall f: nat :: b <= f < b + 512 ==> Usable(entries, layout, f)
    ensures Falling(pm.free)
    ensures forall f :: 0 <= f < pm.npages ==> pm.pages[f].ppRef == 0
  {
    hide Partition, Listed, Owns, WithinOne, Formed, GoodMap, UsableFrames, Weight, Falling;
    FillFreeList(pm, entries, layout);
    hide Usable;
    ghost var avail := set nd | nd in pm.free :: nd.frame;
    AvailableAreUsable(pm.free, entries, layout, avail);
    UsableInRange(pm.npages, pm.free, pm.owned, entries, layout);
    ghost var merged := InitialMerge(pm, entries, avail);
    FormedCovers(pm.free, avail, merged);
    WeightIsCoverage(pm.npages, pm.free, pm.owned, UsableFrames(entries, layout, pm.npages));
    OwnedAreReserved(pm.npages, pm.free, pm.owned, entries, layout);
    CoverageMeans(pm.free, entries, layout);
    HugeNodesMean(pm.free, avail, merged, entries, layout);
  }

  /** The huge nodes after boot, spelled out. */
  lemma HugeNodesMean(free: seq<Node>, avail: set<nat>, merged: set<nat>, entries: seq<MmapEntry>, layout: Layout)
    requires Formed(free, avail, merged) && forall f: nat :: f in avail <==> Usable(entries, layout, f)
    requires forall b :: b in merged <==> Whole(avail, b) && WithinOne(entries, |entries|, b)
    ensures forall b: nat :: Node(b, true) in free <==>
      && b % 512 == 0
      && (exists i :: 0 <= i < |entries| && entries[i].isFree && entries[i].addr <= b * 4096 &&
            (b + 512) * 4096 <= entries[i].addr + entries[i].len)
      && forall f: nat :: b <= f < b + 512 ==> Usable(entries, layout, f)
  {
    hide Formed, Usable, WithinOne;
    forall b: nat ensures Node(b, true) in free <==>
      && b % 512 == 0
      && (exists i :: 0 <= i < |entries| && entries[i].isFree && entries[i].addr <= b * 4096 &&
            (b + 512) * 4096 <= entries[i].addr + entries[i].len)
      && forall f: nat :: b <= f < b + 512 ==> Usable(entries, layout, f)
    {
      InFormed(free, avail, merged, b);
      WithinOneMeans(entries, b);
      if Whole(avail, b) {
        assert forall f: nat :: b <= f < b + SMALL_PAGES_IN_HUGE ==> f in avail;
      }
    }
  }

  lemma CoverageMeans(free: seq<Node>, entries: seq<MmapEntry>, layout: Layout)
    requires forall f: nat :: Usable(entries, layout, f) <==> exists nd :: nd in free && nd.Covers(f)
    ensures forall f: nat :: CoveredBy(free, f) <==>
      && (exists i :: 0 <= i < |entries| && entries[i].isFree &&
            entries[i].addr <= f * 4096 < entries[i].addr + entries[i].len)
      && f != 0 && f * 4096 != 0x7000 && f * 4096 != layout.elfHeader
      && !(layout.kernelStart <= f * 4096 < layout.kernelEnd)
  {
    hide Usable;
    forall f: nat
      ensures CoveredBy(free, f) <==>
        && (exists i :: 0 <= i < |entries| && entries[i].isFree &&
              entries[i].addr <= f * 4096 < entries[i].addr + entries[i].len)
        && f != 0 && f * 4096 != 0x7000 && f * 4096 != layout.elfHeader
        && !(layout.kernelStart <= f * 4096 < layout.kernelEnd)
    {
      UsableMeans(entries, layout, f);
      assert Usable(entries, layout, f) <==> exists nd :: nd in free && nd.Covers(f);
    }
  }

  lemma WithinOneMeans(entries: seq<MmapEntry>, b: nat)
    ensures WithinOne(entries, |entries|, b) <==>
      exists i :: 0 <= i < |entries| && entries[i].isFree && entries[i].addr <= b * 4096 &&
        (b + 512) * 4096 <= entries[i].addr + entries[i].len
  {
    if i :| 0 <= i < |entries| && entries[i].isFree && entries[i].addr <= b * 4096
            && (b + 512) * 4096 <= entries[i].End()
    {
      assert WithinEntry(entries[i], b, entries[i].End() / PAGE_SIZE);
    }
    if WithinOne(entries, |entries|, b) {
      var i :| 0 <= i < |entries| && WithinEntry(entries[i], b, entries[i].End() / PAGE_SIZE);
    }
  }

  /** The allocated blocks are those the free list does not cover. */
  lemma OwnedAreReserved(n: nat, free: seq<Node>, owned: set<Node>, entries: seq<MmapEntry>, layout: Layout)
    requires Partition(n, free, owned)
    requires forall f: nat :: Usable(entries, layout, f) <==> exists nd :: nd in free && nd.Covers(f)
    requires forall f: nat :: f < n && !Usable(entries, layout, f) ==> Node(f, false) in owned
    ensures owned == ReservedNodes(entries, layout, n)
  {
    hide Usable;
    forall nd | nd in owned ensures nd in ReservedNodes(entries, layout, n) {
      assert IsBlock(free, owned, nd);
      forall other | other in free ensures !other.Covers(nd.frame) {
        assert IsBlock(free, owned, other);
      }
      var small := Node(nd.frame, false);
      assert IsBlock(free, owned, small) && !small.Apart(nd);
    }
  }

  lemma UsableInRange(n: nat, free: seq<Node>, owned: set<Node>, entries: seq<MmapEntry>, layout: Layout)
    requires Partition(n, free, owned) && forall nd :: nd in free <==> !nd.huge && Usable(entries, layout, nd.frame)
    requires forall f: nat :: f < n && Node(f, false) !in free ==> Node(f, false) in owned
    ensures forall f: nat :: f in UsableFrames(entries, layout, n) <==> Usable(entries, layout, f)
    ensures forall f: nat :: f < n && !Usable(entries, layout, f) ==> Node(f, false) in owned
  {
    hide Usable;
    forall f: nat ensures f in UsableFrames(entries, layout, n) <==> Usable(entries, layout, f) {
      assert IsBlock(free, owned, Node(f, false)) ==> f + 1 <= n;
      assert Usable(entries, layout, f) ==> Node(f, false) in free;
    }
    forall f: nat | f < n && !Usable(entries, layout, f) ensures Node(f, false) in owned {
      assert Node(f, false) !in free;
    }
  }

  lemma AvailableAreUsable(free: seq<Node>, entries: seq<MmapEntry>, layout: Layout, avail: set<nat>)
    requires forall nd :: nd in free <==> !nd.huge && Usable(entries, layout, nd.frame)
    requires avail == set nd | nd in free :: nd.frame
    ensures forall f: nat :: f in avail <==> Usable(entries, layout, f)
    ensures forall nd :: nd in free <==> !nd.huge && nd.frame in avail
    ensures 0 !in avail
  {
    hide InEntries;
    forall f: nat ensures f in avail <==> Usable(entries, layout, f) {
      assert Node(f, false) in free <==> Usable(entries, layout, f);
    }
  }

  lemma InFormed(free: seq<Node>, avail: set<nat>, merged: set<nat>, b: nat)
    requires Formed(free, avail, merged)
    ensures Node(b, true) in free <==> b in merged
  {
  }

  /** The formed list covers the available frames and no others. */
  lemma FormedCovers(free: seq<Node>, avail: set<nat>, merged: set<nat>)
    requires Formed(free, avail, merged)
    ensures forall f: nat :: f in avail <==> exists nd :: nd in free && nd.Covers(f)
  {
    forall f: nat ensures f in avail <==> exists nd :: nd in free && nd.Covers(f) {
      if f in avail {
        var nd := if Base(f) in merged then Node(Base(f), true) else Node(f, false);
        assert nd in free && nd.Covers(f);
      }
    }
  }

  lemma NothingBelowZero(e: MmapEntry)
    ensures forall b :: !WithinEntry(e, b, 0)
  {
  }

  lemma NotFree(e: MmapEntry)
    requires !e.isFree
    ensures forall b, p :: !WithinEntry(e, b, p)
  {
  }

  lemma OneMoreEntry(entries: seq<MmapEntry>, i: nat)
    requires i < |entries|
    ensures forall b :: WithinOne(entries, i + 1, b) <==>
      WithinOne(entries, i, b) || WithinEntry(entries[i], b, entries[i].End() / PAGE_SIZE)
  {
  }
}

/** From the memory map to the first program: physical memory, the kernel's address space, one environment with its
    program loaded, and then any sequence of calls and faults. */
module Startup {
  import opened Bits
  import opened FreeList
  import opened Paging
  import opened Frames
  import opened Tree
  import opened PageTables
  import opened VmaSpec
  import VL = VmaList
  import opened Views
  import opened VmaCalls
  import opened Boot
  import opened KernelMap
  import opened KernelSpace
  import EnvTable
  import opened Budget
  import opened Kernel
  import opened ProgramView

  /** The state while one environment exists: apart from its own tables and pages only the kernel's page tables, the
      frames that were never handed out, and one wasted page are allocated. */
  ghost predicate Up(v: Snapshot, root: nat, k: KernelLayout, reserved: set<Node>, n: nat)
    requires |k.vmasPa| == EnvTable.NENV
  {
    && root != k.root
    && (forall r: Region :: r.root != root ==>
          (r in v.tree.tables <==> r == Region(k.root, 4, 0) || r in KernelTables(k, n)))
    && (forall r :: r in v.tree.Leaves() && r.root != root ==> r in v.tree.fixed)
    && (exists nd: Node :: !nd.huge && nd !in reserved &&
          v.tree.Unused(v.owned) == reserved - {Node(k.root, false)} + {nd})
  }

  /** Only the kernel's address space exists, and it costs one frame for each of its page tables. */
  ghost predicate KernelUp(v: Snapshot, k: KernelLayout, reserved: set<Node>, usable: nat, n: nat)
    requires |k.vmasPa| == EnvTable.NENV
  {
    && v.tree.WellFormed()
    && v.tree.tables.Keys == {Region(k.root, 4, 0)} + KernelTables(k, n)
    && StaticOnly(v.tree, k.root) && (forall r :: r in v.tree.Leaves() ==> r.root == k.root)
    && v.tree.Unused(v.owned) == reserved - {Node(k.root, false)}
    && v.spare + |KernelTables(k, n)| == usable
  }

  /** Sets up physical memory from the memory map and builds the kernel's address space, if there are frames enough. */
  method BootKernel(n: nat, entries: seq<MmapEntry>, layout: Layout, k: KernelLayout) returns (pt: PageTables?)
    requires n % SMALL_PAGES_IN_HUGE == 0 && n <= MAX_FRAMES && GoodMap(entries, n)
    requires k.Ok(n) && layout.Reserved(k.root * PAGE_SIZE)
    ensures pt != null <==> |UsableFrames(entries, layout, n)| >= |KernelTables(k, n)|
    ensures pt != null ==>
      && pt.Valid() && pt.stale == {} && pt.pm.npages == n
      && KernelUp(pt.Snap(), k, ReservedNodes(entries, layout, n), |UsableFrames(entries, layout, n)|, n)
      && fresh(pt) && fresh(pt.pm) && fresh(pt.pm.pages) && fresh(pt.pm.words) && fresh(pt.pm.bytes)
  {
    hide PageTables.Valid, Partition, Listed, Owns, GoodMap, Usable, WithinOne, KernelTables, KernelLayout.Ok,
         StaticOnly, LinearMapAll, UsableFrames, ReservedNodes, Weight, Tree.Unused;
    var pm := new PhysicalMemory(n);
    PageInit(pm, entries, layout);
    RootIsReserved(entries, layout, k, n);
    pt := new PageTables(pm);
    var ok := MemInit(pt, k);
    if !ok {
      return null;
    }
    KernelLeaves(k, n);
    pt.TreeIsSound();
  }

  /** Then gives one environment an address space and a list of areas, and loads a program. An environment comes up
      exactly when there is a frame for each of the kernel's page tables and two more, one for the root table of the
      environment and one that loading wastes, and no segment of the program is rejected. */
  method BringUp(n: nat, entries: seq<MmapEntry>, layout: Layout, k: KernelLayout, image: int -> byte,
                 segments: seq<ProgramSegment>)
    returns (env: Env?)
    requires n % SMALL_PAGES_IN_HUGE == 0 && n <= MAX_FRAMES && GoodMap(entries, n)
    requires k.Ok(n) && layout.Reserved(k.root * PAGE_SIZE)
    requires forall i :: 0 <= i < |segments| ==> SegmentFits(segments[i])
    ensures env != null <==>
      |UsableFrames(entries, layout, n)| >= |KernelTables(k, n)| + 2 && SegmentsSucceed(FreshList(), segments)
    ensures env != null ==>
      && env.Valid() && env.Coherent() && env.pt.pm.npages == n
      && env.vmas.Contents() == AfterInserts(FreshList(), ProgramAreas(segments))
      && Up(env.pt.Snap(), env.pml4, k, ReservedNodes(entries, layout, n), n)
      && fresh(env) && fresh(env.vmas) && fresh(env.vmas.pool) && fresh(env.pt) && fresh(env.pt.pm)
      && fresh(env.pt.pm.pages) && fresh(env.pt.pm.words) && fresh(env.pt.pm.bytes)
  {
    hide PageTables.Valid, VL.VmaList.Valid, Env.Valid, Partition, GoodMap, SegmentFits, KernelTables, SegmentsSucceed,
         AfterInserts, ProgramAreas, KernelLayout.Ok, UsableFrames, ReservedNodes, Weight, Up, LowSlots, OneWasted,
         Tree.Unused, KernelUp;
    RootIsReserved(entries, layout, k, n);
    var pt := BootKernel(n, entries, layout, k);
    if pt == null {
      return null;
    }
    ghost var v0 := pt.Snap();
    WeightZero(pt.pm.free);
    var root := pt.NewRoot();
    KernelBeside(v0, root, k, ReservedNodes(entries, layout, n), |UsableFrames(entries, layout, n)|, n);
    if root == NIL {
      return null;
    }
    WeightZero(pt.pm.free);
    var vmas := new VL.VmaList();
    assert vmas.Contents() == FreshList();
    env := new Env(pt, vmas, root, image);
    NothingMapped(pt.tree, root, vmas.areas);
    ghost var v := pt.Snap();
    pt.TreeIsSound();
    var ok := env.LoadIcode(segments);
    if !ok {
      return null;
    }
    UpAfterLoad(v0, v, pt.Snap(), root, k, ReservedNodes(entries, layout, n), |UsableFrames(entries, layout, n)|, n);
  }

  /** And then handles a sequence of system calls and faults. */
  method BootAndRun(n: nat, entries: seq<MmapEntry>, layout: Layout, k: KernelLayout, image: int -> byte,
                    segments: seq<ProgramSegment>, events: seq<Event>)
    returns (env: Env?, o: Outcome, at: nat)
    requires n % SMALL_PAGES_IN_HUGE == 0 && n <= MAX_FRAMES && GoodMap(entries, n)
    requires k.Ok(n) && layout.Reserved(k.root * PAGE_SIZE)
    requires forall i :: 0 <= i < |segments| ==> SegmentFits(segments[i])
    requires forall e :: e in events ==> EventOk(e)
    ensures env != null <==>
      |UsableFrames(entries, layout, n)| >= |KernelTables(k, n)| + 2 && SegmentsSucceed(FreshList(), segments)
    ensures env != null ==>
      var list := AfterInserts(FreshList(), ProgramAreas(segments));
      && env.Valid() && at <= |events| && (o == Finished <==> at == |events|)
      && (forall j :: 0 <= j < at ==> GoesOn(list, events, j, k.kernelVma))
      && (o == OutOfMemory ==> env.pt.pm.free == [])
      && (o != OutOfMemory ==> env.vmas.Contents() == AfterAll(list, events[..at]))
      && (o != OutOfMemory && Intact(list, events[..at]) ==> env.Coherent())
    ensures env != null && o != OutOfMemory ==>
      env.pt.pm.npages == n && Up(env.pt.Snap(), env.pml4, k, ReservedNodes(entries, layout, n), n)
    ensures env != null ==>
      fresh(env.pt) && fresh(env.pt.pm) && fresh(env.pt.pm.pages) && fresh(env.pt.pm.words) && fresh(env.pt.pm.bytes)
  {
    hide PageTables.Valid, VL.VmaList.Valid, Env.Valid, GoodMap, EventOk, SegmentFits, KernelTables, SegmentsSucceed,
         AfterInserts, ProgramAreas, AfterAll, Intact, GoesOn, KernelLayout.Ok, UsableFrames, ReservedNodes, Weight,
         Up, Clean, CoherentIn;
    RootIsReserved(entries, layout, k, n);
    env := BringUp(n, entries, layout, k, image, segments);
    if env == null {
      return null, OutOfMemory, 0;
    }
    ghost var v := env.pt.Snap();
    o, at := env.Run(events, k.kernelVma);
    if o != OutOfMemory {
      UpKept(v, env.pt.Snap(), env.pml4, k, ReservedNodes(entries, layout, n), n);
    }
  }

  /** From the memory map to the end of a program: whatever it did, unless memory ran out on the way, tearing down its
      address space gives back every frame but the page that loading wasted. The kernel lies above user space. */
  method BootRunAndFree(n: nat, entries: seq<MmapEntry>, layout: Layout, k: KernelLayout, image: int -> byte,
                        segments: seq<ProgramSegment>, events: seq<Event>)
    returns (env: Env?, o: Outcome)
    requires n % SMALL_PAGES_IN_HUGE == 0 && n <= MAX_FRAMES && GoodMap(entries, n)
    requires k.Ok(n) && layout.Reserved(k.root * PAGE_SIZE) && USER_SLOTS <= Pml4Index(k.kernelVma) <= TABLE_ENTRIES
    requires forall i :: 0 <= i < |segments| ==> SegmentFits(segments[i])
    requires forall e :: e in events ==> EventOk(e)
    ensures env != null <==>
      |UsableFrames(entries, layout, n)| >= |KernelTables(k, n)| + 2 && SegmentsSucceed(FreshList(), segments)
    ensures env != null && o != OutOfMemory ==>
      && env.pt.Valid()
      && Weight(env.pt.pm.free) == |UsableFrames(entries, layout, n)| - |KernelTables(k, n)| - 1
      && env.pt.tree.tables.Keys == {Region(k.root, 4, 0)} + KernelTables(k, n)
  {
    hide PageTables.Valid, VL.VmaList.Valid, GoodMap, EventOk, SegmentFits, KernelTables, SegmentsSucceed,
         AfterInserts, ProgramAreas, AfterAll, Intact, GoesOn, KernelLayout.Ok, UsableFrames, ReservedNodes, Weight,
         Up, UserTree, LowSlots, Tree.Unused, Tree.Leaves, Partition;
    var at;
    env, o, at := BootAndRun(n, entries, layout, k, image, segments, events);
    if env == null || o == OutOfMemory {
      return;
    }
    var root := env.pml4;
    ghost var v := env.pt.Snap();
    env.pt.TreeIsSound();
    LowIsUser(v.tree, root);
    MoreSlots(v.tree, Region(root, 4, 0), USER_SLOTS, Pml4Index(k.kernelVma));
    env.pt.FreeAddressSpace(root, Pml4Index(k.kernelVma));
    env.pt.TreeIsSound();
    RootIsReserved(entries, layout, k, n);
    NothingLeft(v, env.pt.Snap(), env.pt.pm.free, root, k, entries, layout, n);
  }

  lemma MoreSlots(t: Tree, r: Region, max: nat, more: nat)
    requires UserTree(t, r, max) && max <= more
    ensures UserTree(t, r, more)
  {
  }

  /** A new address space beside the kernel's. */
  lemma KernelBeside(v: Snapshot, root: int, k: KernelLayout, reserved: set<Node>, usable: nat, n: nat)
    requires |k.vmasPa| == EnvTable.NENV && KernelUp(v, k, reserved, usable, n)
    ensures v.spare + |KernelTables(k, n)| == usable
    ensures root >= 0 && Region(root, 4, 0) !in v.tree.tables ==>
      && LowSlots(v.tree.AddRoot(root), root)
      && forall r :: r in v.tree.Leaves() ==> r.root != root
  {
    KernelTablesAre(k, n);
    hide KernelTables;
    if root >= 0 {
      assert v.tree.EntryOk(Region(root, 4, 0));
    }
  }

  lemma UpAfterLoad(v0: Snapshot, v: Snapshot, v': Snapshot, root: nat, k: KernelLayout, reserved: set<Node>,
                    usable: nat, n: nat)
    requires |k.vmasPa| == EnvTable.NENV && KernelUp(v0, k, reserved, usable, n)
    requires v.tree == v0.tree.AddRoot(root) && Region(root, 4, 0) !in v0.tree.tables && OneWasted(v, v')
    requires v.tree.Leaves() == v0.tree.Leaves() && v.tree.Unused(v.owned) == v0.tree.Unused(v0.owned)
    requires v.tree.Sound(v.owned)
    ensures Up(v', root, k, reserved, n)
  {
    hide KernelTables, Tree.Leaves;
    var top := Region(k.root, 4, 0);
    assert top in v0.tree.tables && root != k.root;
    TableFrame(v.tree, top);
    var nd: Node :| !nd.huge && nd !in v.owned && v'.tree.Unused(v'.owned) == v.tree.Unused(v.owned) + {nd};
    UnusedAreOwned(v.tree, v.owned);
    assert nd !in reserved;
  }

  lemma UnusedAreOwned(t: Tree, owned: set<Node>)
    ensures t.Unused(owned) <= owned
  {
  }

  lemma UpKept(v: Snapshot, v': Snapshot, root: nat, k: KernelLayout, reserved: set<Node>, n: nat)
    requires |k.vmasPa| == EnvTable.NENV && Up(v, root, k, reserved, n) && Clean(v, v', root)
    ensures Up(v', root, k, reserved, n)
  {
    hide KernelTables, Tree.Leaves, Tree.Unused;
  }

  /** Every frame is usable or reserved. */
  lemma ReservedCount(entries: seq<MmapEntry>, layout: Layout, n: nat)
    ensures |ReservedNodes(entries, layout, n)| + |UsableFrames(entries, layout, n)| == n
  {
    hide Usable;
    var usable, reserved := UsableFrames(entries, layout, n), ReservedNodes(entries, layout, n);
    FrameCount(reserved);
    var frames := set nd | nd in reserved :: nd.frame;
    forall f: nat ensures f in frames <==> f < n && !Usable(entries, layout, f) {
      assert f in frames ==> exists nd :: nd in reserved && nd.frame == f;
      if f < n && !Usable(entries, layout, f) {
        assert Node(f, false) in reserved;
      }
    }
    assert usable + frames == Interval(0, n) && usable !! frames;
  }

  /** After the teardown: the kernel's tables, what was never handed out, and one page. */
  lemma NothingLeft(v: Snapshot, v': Snapshot, free: seq<Node>, root: nat, k: KernelLayout, entries: seq<MmapEntry>,
                    layout: Layout, n: nat)
    requires |k.vmasPa| == EnvTable.NENV && Up(v, root, k, ReservedNodes(entries, layout, n), n)
    requires Node(k.root, false) in ReservedNodes(entries, layout, n)
    requires v'.tree.Unused(v'.owned) == v.tree.Unused(v.owned) && v'.tree.fixed == v.tree.fixed
    requires forall s :: s in v'.tree.tables <==> s in v.tree.tables && s.root != root
    requires forall s :: s in v'.tree.entries <==> s in v.tree.entries && s.root != root
    requires Partition(n, free, v'.owned) && v'.tree.Sound(v'.owned)
    ensures v'.tree.tables.Keys == {Region(k.root, 4, 0)} + KernelTables(k, n)
    ensures Weight(free) == |UsableFrames(entries, layout, n)| - |KernelTables(k, n)| - 1
  {
    hide Up, KernelTables, Usable, Weight, Partition, Tree.Unused, Tree.Leaves, Tree.Sound, ReservedNodes, UsableFrames,
         TableNodes;
    var reserved, t := ReservedNodes(entries, layout, n), v'.tree;
    TablesLeft(v, v', root, k, reserved, n);
    UpLeaves(v, root, k, reserved, n);
    LeavesLeft(v.tree, t, root);
    SoundParts(t, v'.owned);
    OwnedAreTables(t, n, free, v'.owned);
    TableCount(t, t.tables.Keys);
    TablesAreSmall(t);
    ReservedAreSmall(entries, layout, n);
    UnusedCount(v, root, k, reserved, n);
    ReservedCount(entries, layout, n);
    FreeAndOwned(n, free, v'.owned);
  }

  lemma SoundParts(t: Tree, owned: set<Node>)
    requires t.Sound(owned)
    ensures t.WellFormed() && t.Unaliased()
  {
  }

  lemma UpLeaves(v: Snapshot, root: nat, k: KernelLayout, reserved: set<Node>, n: nat)
    requires |k.vmasPa| == EnvTable.NENV && Up(v, root, k, reserved, n)
    ensures forall r :: r in v.tree.Leaves() && r.root != root ==> r in v.tree.fixed
  {
  }

  lemma TablesLeft(v: Snapshot, v': Snapshot, root: nat, k: KernelLayout, reserved: set<Node>, n: nat)
    requires |k.vmasPa| == EnvTable.NENV && Up(v, root, k, reserved, n)
    requires forall s :: s in v'.tree.tables <==> s in v.tree.tables && s.root != root
    ensures v'.tree.tables.Keys == {Region(k.root, 4, 0)} + KernelTables(k, n)
    ensures |v'.tree.tables.Keys| == 1 + |KernelTables(k, n)|
  {
    KernelTablesAre(k, n);
    hide KernelTables;
    assert v'.tree.tables.Keys == {Region(k.root, 4, 0)} + KernelTables(k, n);
  }

  lemma UnusedCount(v: Snapshot, root: nat, k: KernelLayout, reserved: set<Node>, n: nat)
    requires |k.vmasPa| == EnvTable.NENV && Up(v, root, k, reserved, n) && Node(k.root, false) in reserved
    requires forall nd :: nd in reserved ==> !nd.huge
    ensures |v.tree.Unused(v.owned)| == |reserved| && forall nd :: nd in v.tree.Unused(v.owned) ==> !nd.huge
  {
    hide KernelTables, Tree.Unused;
    var nd: Node :| !nd.huge && nd !in reserved &&
                    v.tree.Unused(v.owned) == reserved - {Node(k.root, false)} + {nd};
  }

  lemma ReservedAreSmall(entries: seq<MmapEntry>, layout: Layout, n: nat)
    ensures forall nd :: nd in ReservedNodes(entries, layout, n) ==> !nd.huge
  {
  }

  lemma TablesAreSmall(t: Tree)
    ensures forall nd :: nd in TableNodes(t, t.tables.Keys) ==> !nd.huge
  {
  }

  lemma LeavesLeft(t: Tree, t': Tree, root: nat)
    requires forall r :: r in t.Leaves() && r.root != root ==> r in t.fixed
    requires forall s :: s in t'.tables <==> s in t.tables && s.root != root
    requires forall s :: s in t'.entries <==> s in t.entries && s.root != root
    requires t'.fixed == t.fixed
    ensures forall r :: r in t'.Leaves() ==> r in t'.fixed
  {
    forall r | r in t'.Leaves() ensures r in t'.fixed {
      assert r in t.Leaves();
    }
  }

  lemma RootIsReserved(entries: seq<MmapEntry>, layout: Layout, k: KernelLayout, n: nat)
    requires k.Ok(n) && layout.Reserved(k.root * PAGE_SIZE)
    ensures k.root < n && !Usable(entries, layout, k.root) && |k.vmasPa| == EnvTable.NENV
    ensures Node(k.root, false) in ReservedNodes(entries, layout, n)
  {
  }

  lemma KernelLeaves(k: KernelLayout, n: nat)
    requires k.Ok(n)
    ensures var leaves := LinearMapAll(map[], k.root, TableMappings(k, n));
      forall r :: r in LinearMapAll(leaves, k.root, ImageMappings(k, n)) ==> r.root == k.root
  {
    LinearMapAllRoots(map[], k.root, TableMappings(k, n));
    LinearMapAllRoots(LinearMapAll(map[], k.root, TableMappings(k, n)), k.root, ImageMappings(k, n));
  }

  lemma WeightZero(nodes: seq<Node>)
    ensures Weight(nodes) >= 1 <==> nodes != []
  {
  }

  lemma NothingMapped(t: Tree, root: nat, areas: seq<Area>)
    requires forall r :: r in t.Leaves() ==> r.root != root
    ensures CoherentIn(t, root, areas)
  {
  }
}

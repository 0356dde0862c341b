/** An environment's address space: areas, page tables and the calls that keep them together. */
module Kernel {
  import opened FreeList
  import opened Bits
  import opened Paging
  import opened Frames
  import opened Tree
  import opened PageTables
  import opened VmaSpec
  import VL = VmaList
  import opened Views
  import opened Budget
  import opened VmaCalls

  /** The region of one page of user space. */
  function PageRegion(root: nat, va: nat): Region {
    Region(root, 0, va / PAGE_SIZE)
  }

  /** What handling a fault ends in: the page is there, no area covers the address, or memory ran out. */
  datatype FaultResult = Loaded | NoArea | Panic

  /** The view after the page at `va` has been loaded from the area it lies in. */
  ghost function FaultIn(view: map<Region, PageView>, root: nat, areas: seq<Area>, image: int -> byte, va: nat):
    map<Region, PageView>
  {
    match Find(areas, va)
    case None => view
    case Some(i) => view[PageRegion(root, va) := PageView(areas[i].perm, Content(areas[i], image, va))]
  }

  /** In its address space only region r maps the page. */
  ghost predicate SoleMapping(t: Tree, r: Region, page: nat) {
    forall s :: s in t.Leaves() && s.root == r.root && s != r ==> t.Leaves()[s].frame != page
  }

  datatype CreateResult = Created(va: nat) | Failed | CreatePanic

  datatype HandlerResult = Resume | DestroyEnv | KernelPanic

  datatype DestroyResult = Destroyed | DestroyPanic

  /** How a run ends: all events are handled, a call finds a list of one node, memory has run out, or the
      environment is gone or the kernel has stopped. */
  datatype Outcome = Finished | OneNodeLeft | OutOfMemory | Ended

  /** Everything in [va, va + size) is granted with the given permissions. */
  ghost predicate Granted(areas: seq<Area>, va: nat, size: nat, perm: nat) {
    forall x :: va <= x < va + size ==> PermAt(areas, x) == Some(perm)
  }

  lemma GrantedAt(areas: seq<Area>, va: nat, size: nat, perm: nat, x: nat)
    requires Granted(areas, va, size, perm) && va <= x < va + size
    ensures PermAt(areas, x) == Some(perm)
  {
  }

  /** All leaves of the address space with page addresses in [from, to) are gone, and nothing else is. */
  ghost predicate LeavesWithout(t: Tree, t': Tree, root: nat, from: nat, to: nat) {
    && t'.fixed == t.fixed
    && (forall r :: r in t'.Leaves() <==>
          r in t.Leaves() && !(r.root == root && r.level == 0 && from <= r.index * PAGE_SIZE < to))
    && (forall r :: r in t'.Leaves() ==> t'.Leaves()[r] == t.Leaves()[r])
  }

  /** Some page of the address space with an address in [from, to) is mapped. */
  ghost predicate MappedIn(t: Tree, root: nat, from: nat, to: nat) {
    exists r :: r in t.Leaves() && r.root == root && from <= r.index * PAGE_SIZE < to
  }

  class Env {
    const pt: PageTables
    const vmas: VL.VmaList
    const pml4: nat
    /** Kernel memory, where the program files lie. */
    const image: int -> byte

    /** An environment with an empty address space and no areas. */
    constructor (pt: PageTables, vmas: VL.VmaList, pml4: nat, image: int -> byte)
      requires pt.Valid() && pt.stale == {} && Region(pml4, 4, 0) in pt.tree.tables
      requires vmas.Valid() && vmas.areas == []
      requires (forall r :: r in pt.tree.Leaves() ==> r.root != pml4) && LowSlots(pt.tree, pml4)
      ensures Valid() && this.pt == pt && this.vmas == vmas && this.pml4 == pml4 && this.image == image
    {
      this.pt := pt;
      this.vmas := vmas;
      this.pml4 := pml4;
      this.image := image;
    }

    ghost predicate Valid()
      reads this, pt, pt.pm, pt.pm.pages, pt.pm.words, vmas, vmas.pool
    {
      && pt.Valid() && pt.stale == {}
      && Region(pml4, 4, 0) in pt.tree.tables
      && SmallOnly(pt.tree, pml4) && LowSlots(pt.tree, pml4)
      && vmas.Valid()
      && AllBacked(vmas.areas)
    }

    /** Nothing is mapped outside the areas, or with other permissions than theirs. */
    ghost predicate Coherent()
      reads this, pt, vmas
    {
      CoherentIn(pt.tree, pml4, vmas.areas)
    }

    ghost function View(): map<Region, PageView>
      reads this, pt, pt.pm, pt.pm.bytes
    {
      ViewOf(pt.tree, pml4, pt.pm.bytes[..])
    }

    /** Allocates a zeroed page and maps it at `va`; NIL when fewer frames are free than the page and the missing tables
        take, where the original panics. */
    method MapFresh(va: nat, perm: nat) returns (page: int)
      requires Valid() && va % PAGE_SIZE == 0 && va < USER_TOP && perm < PAGE_SIZE
      modifies pt`tree, pt.pm`pageFreeList, pt.pm`free, pt.pm`owned, pt.pm.pages, pt.pm.words, pt.pm.bytes
      ensures Valid()
      ensures page == NIL ==> pt.pm.free == [] && View() == old(View()) && pt.tree.Leaves() == old(pt.tree).Leaves()
      ensures page == NIL <==> old(pt.Snap()).spare < Cost(old(pt.Snap()), 1, PathTo(pml4, va))
      ensures page != NIL ==>
        && 0 <= page < pt.pm.npages
        && View() == old(View())[PageRegion(pml4, va) := PageView(perm, ZeroPage())]
        && pt.tree.Leaves() == old(pt.tree).Leaves()[PageRegion(pml4, va) := Entry(page, perm, Huge(perm))]
        && SoleMapping(pt.tree, PageRegion(pml4, va), page)
        && Spent(old(pt.Snap()), pt.Snap(), 1, PathTo(pml4, va), PageRegion(pml4, va) !in old(View()))
        && Clean(old(pt.Snap()), pt.Snap(), pml4)
    {
      hide Partition, Listed, Owns, Counted, AllEncodable, InMemory, Extended, Grew, Tree.Unaliased, Tree.Held,
           BlocksKept, Tree.Unused, PathOf, TablesAdded, LowSlots, Spent, Clean, Weight, ViewOf, SoleMapping,
           PageBytes;
      ghost var r, v0 := PageRegion(pml4, va), pt.Snap();
      UserPage(pml4, va);
      NoWeight();
      ZeroWeight(pt.pm.free);
      page := pt.AllocPage(true);
      ghost var v1 := pt.Snap();
      ExtendedKeeps(v0, v1, {});
      ViewKept(v0.tree, pml4, v0.owned, v0.bytes, v1.bytes);
      if page == NIL {
        return;
      }
      assert pt.tree.entries == v0.tree.entries;
      FreshTarget(pt.tree, pml4, va, page);
      var err := pt.PageInsert(pml4, page, va, perm);
      ghost var v2 := pt.Snap();
      assert PathTo(pml4, va) == PathOf(pml4, Vpn(va), false);
      if err != 0 {
        ExtendedKeeps(v1, v2, PathOf(pml4, Vpn(va), false));
        ViewKept(v1.tree, pml4, v1.owned, v1.bytes, v2.bytes);
        SameLeaves(v1.tree, v2.tree, pml4, v2.bytes);
        PathIsLow(v1.tree, v2.tree, pml4, va);
        page := NIL;
      } else {
        AddedKeys(v1.tree, v2.tree, PathTo(pml4, va));
        PathIsLow(v1.tree, v2.tree, pml4, va);
        InViewIff(v0.tree, pml4, v0.bytes, r);
        PageSpent(v0, v1, v2, pml4, va, page, perm);
        PageClean(v0, v1, v2, pml4, va, page, perm);
        ViewMapped(v1, v2, pml4, r, page, perm);
        KeptPage(v1.bytes, v2.bytes, v1.owned, page);
        FreshIsSole(v1.tree, v2.tree, r, page, Entry(page, perm, Huge(perm)));
      }
    }

    /** Fills a freshly mapped page of a program segment from the file. */
    method CopyIn(page: nat, a: Area, va: nat)
      requires pt.pm.bytes.Length == pt.pm.npages * PAGE_SIZE && page < pt.pm.npages
      requires Backed(a) && a.kind == VmaBinary && a.va <= va && va + PAGE_SIZE <= a.End() && a.va % PAGE_SIZE == 0
      requires va % PAGE_SIZE == 0
      requires PageBytes(pt.pm.bytes[..], page) == ZeroPage()
      modifies pt.pm.bytes
      ensures PageBytes(pt.pm.bytes[..], page) == Content(a, image, va)
      ensures forall f: nat :: f != page ==>
        PageBytes(pt.pm.bytes[..], f) == PageBytes(old(pt.pm.bytes[..]), f)
    {
      WindowIsExact(a, va);
      var c := Window(a, va);
      if c.size == 0 {
        assert forall x :: va <= x < va + PAGE_SIZE ==> !InFile(a, x);
        assert ZeroPage() == Content(a, image, va);
        return;
      }
      var bytes := pt.pm.bytes;
      ghost var before := bytes[..];
      var to := page * PAGE_SIZE + (c.dst - va);
      forall k | 0 <= k < c.size {
        bytes[to + k] := image(c.src + k);
      }
      CopiedPage(before, bytes[..], page, a, image, va, c);
    }

    /** Gives a freshly mapped zero page the contents its area prescribes. */
    method FillPage(page: nat, a: Area, va: nat)
      requires Valid() && page < pt.pm.npages && va % PAGE_SIZE == 0 && a.va % PAGE_SIZE == 0
      requires Backed(a) && a.va <= va && va + PAGE_SIZE <= a.End()
      requires var r := PageRegion(pml4, va);
        && r in pt.tree.Leaves() && pt.tree.Leaves()[r].frame == page && pt.tree.Leaves()[r].perm == a.perm
        && SoleMapping(pt.tree, r, page)
        && View()[r] == PageView(a.perm, ZeroPage())
      modifies pt.pm.bytes
      ensures Valid()
      ensures View() == old(View())[PageRegion(pml4, va) := PageView(a.perm, Content(a, image, va))]
    {
      hide Partition, Listed, Owns, Counted, AllEncodable, InMemory, Tree.Sound, Spaced, SmallOnly, Content,
           VL.Chain, Visible;
      ghost var r, bs := PageRegion(pml4, va), pt.pm.bytes[..];
      if a.kind == VmaBinary {
        CopyIn(page, a, va);
        FilledView(pt.tree, pml4, r, page, bs, pt.pm.bytes[..]);
      } else {
        AnonContent(a, image, va);
        assert old(View())[r := View()[r]] == View();
      }
    }

    /** Loads the page at a faulting address, if it lies in an area. */
    method PageFaultLoadPage(va: nat) returns (r: FaultResult)
      requires Valid() && va % PAGE_SIZE == 0
      modifies pt`tree, pt.pm`pageFreeList, pt.pm`free, pt.pm`owned, pt.pm.pages, pt.pm.words, pt.pm.bytes
      ensures Valid()
      ensures old(Coherent()) ==> Coherent()
      ensures r == NoArea <==> Find(vmas.areas, va) == None
      ensures r == Panic ==> pt.pm.free == []
      ensures r == Panic <==>
        Find(vmas.areas, va).Some? && old(pt.Snap()).spare < Cost(old(pt.Snap()), 1, PathTo(pml4, va))
      ensures r != Panic ==> Clean(old(pt.Snap()), pt.Snap(), pml4)
      ensures r == Loaded ==>
        Spent(old(pt.Snap()), pt.Snap(), 1, PathTo(pml4, va), PageRegion(pml4, va) !in old(View()))
      ensures r != Loaded ==> View() == old(View())
      ensures r == Loaded ==>
        View() == FaultIn(old(View()), pml4, vmas.areas, image, va)
    {
      hide Partition, Listed, Owns, Counted, AllEncodable, InMemory, Tree.Sound, Spaced, CoherentIn, SmallOnly,
           ViewOf, Content, VL.Chain, Visible, Clean, Spent, Cost, PathTo, Weight, LowSlots;
      var node := vmas.Lookup(va);
      if node == NIL {
        CleanNothing(old(pt.Snap()), pt.Snap(), pml4);
        return NoArea;
      }
      var a := vmas.pool[node].area;
      AreaOfPage(vmas.areas, va);
      var page := MapFresh(va, a.perm);
      if page == NIL {
        SameCoherent(old(pt.tree), pt.tree, pml4, vmas.areas);
        return Panic;
      }
      MappedCoherent(old(pt.tree), pt.tree, pml4, vmas.areas, PageRegion(pml4, va));
      ghost var v := pt.Snap();
      FillPage(page, a, va);
      CleanSame(old(pt.Snap()), v, pt.Snap(), pml4);
      SpentSame(old(pt.Snap()), v, pt.Snap(), 1, PathTo(pml4, va), PageRegion(pml4, va) !in old(View()));
      FindUnique(vmas.areas, va, Find(vmas.areas, va).value);
      return Loaded;
    }

    /** Maps zero pages over a whole range; false when memory runs out, where the original panics. */
    method MapPopulate(va: nat, size: nat, perm: nat) returns (ok: bool)
      requires Valid() && va % PAGE_SIZE == 0 && size % PAGE_SIZE == 0 && va + size <= USER_TOP && perm < PAGE_SIZE
      modifies pt`tree, pt.pm`pageFreeList, pt.pm`free, pt.pm`owned, pt.pm.pages, pt.pm.words, pt.pm.bytes
      ensures Valid()
      ensures ok ==> View() == PopulateView(old(View()), pml4, va, size / PAGE_SIZE, perm)
      ensures !ok ==> pt.pm.free == []
      ensures var n := size / PAGE_SIZE;
        var enough := old(pt.Snap()).spare >= Cost(old(pt.Snap()), n, TablesFor(pml4, va, n));
        && (enough ==> ok)
        && (NoneMapped(old(View()), pml4, va, n) ==> (ok <==> enough))
      ensures ok ==> Clean(old(pt.Snap()), pt.Snap(), pml4)
      ensures old(Coherent()) && Granted(vmas.areas, va, size, perm) ==> Coherent()
    {
      hide PageTables.Valid, VL.VmaList.Valid, Spaced, SmallOnly, ViewOf, CoherentIn, PermAt, Granted, PopulateView,
           Clean, Spent, Cost, PathTo, TablesFor, Weight, LowSlots, NoneMapped;
      NothingPopulated(View(), pml4, va, perm);
      ghost var v0, total, exact := pt.Snap(), size / PAGE_SIZE, NoneMapped(View(), pml4, va, size / PAGE_SIZE);
      CleanNothing(v0, v0, pml4);
      SpentNothing(v0, exact);
      NoTables(pml4, va);
      var virtAddr := va;
      ghost var n := 0;
      while virtAddr < va + size
        invariant Valid() && virtAddr == va + n * PAGE_SIZE && n <= size / PAGE_SIZE
        invariant View() == PopulateView(old(View()), pml4, va, n, perm)
        invariant Clean(v0, pt.Snap(), pml4) && Spent(v0, pt.Snap(), n, TablesFor(pml4, va, n), exact)
        invariant old(Coherent()) && Granted(vmas.areas, va, size, perm) ==> Coherent()
      {
        ghost var t, v1, view1 := pt.tree, pt.Snap(), View();
        StillUnmapped(old(View()), pml4, va, total, perm, n);
        NextTables(pml4, va, n, total);
        PageAt(va, size, n);
        OneMorePopulated(old(View()), pml4, va, n, perm);
        var page := MapFresh(virtAddr, perm);
        if page == NIL {
          SameCoherent(t, pt.tree, pml4, vmas.areas);
          SpentLoosely(v0, v1, n, TablesFor(pml4, va, n), exact, false);
          SpentShort(v0, v1, n, TablesFor(pml4, va, n), PathTo(pml4, virtAddr), total, TablesFor(pml4, va, total));
          return false;
        }
        if Granted(vmas.areas, va, size, perm) {
          GrantedAt(vmas.areas, va, size, perm, virtAddr);
          MappedCoherent(t, pt.tree, pml4, vmas.areas, PageRegion(pml4, virtAddr));
        }
        CleanTwice(v0, v1, pt.Snap(), pml4);
        SpentLoosely(v1, pt.Snap(), 1, PathTo(pml4, virtAddr), PageRegion(pml4, virtAddr) !in view1, exact);
        SpentMore(v0, v1, pt.Snap(), n, TablesFor(pml4, va, n), PathTo(pml4, virtAddr), exact);
        virtAddr := virtAddr + PAGE_SIZE;
        n := n + 1;
      }
      if exact {
        SpentEnough(v0, pt.Snap(), total, TablesFor(pml4, va, total));
      }
      return true;
    }

    /** Unmaps all pages of a range; its end is computed modulo 2^64. */
    method UnmapPages(va: nat, size: nat)
      requires Valid() && va % PAGE_SIZE == 0 && va < WORD_LIMIT
      requires Wrap(va + size) % PAGE_SIZE == 0 && Wrap(va + size) <= USER_TOP
      modifies pt`tree, pt.pm`pageFreeList, pt.pm`free, pt.pm`owned, pt.pm.pages, pt.pm.words, pt.pm.bytes
      ensures Valid()
      ensures LeavesWithout(old(pt.tree), pt.tree, pml4, va, Wrap(va + size))
      ensures pt.pm.bytes[..] == old(pt.pm.bytes[..])
      ensures Clean(old(pt.Snap()), pt.Snap(), pml4)
    {
      hide PageTables.Valid, VL.VmaList.Valid, SmallOnly, LeavesWithout, Unmapped, Tree.Leaves, Tree.LeafOf,
           Tree.WellFormed, Tree.Sound, Vpn, PageTables.Snap, Clean, LowSlots, Tree.Unused, Weight;
      var vi, end := va, Wrap(va + size);
      CleanNothing(pt.Snap(), pt.Snap(), pml4);
      NoneLess(pt.tree, pml4, va, if end < va then end else va);
      while vi < end
        invariant Valid() && va <= vi && (vi <= end || vi == va) && vi % PAGE_SIZE == 0
        invariant LeavesWithout(old(pt.tree), pt.tree, pml4, va, if end < va then end else vi)
        invariant pt.pm.bytes[..] == old(pt.pm.bytes[..])
        invariant Clean(old(pt.Snap()), pt.Snap(), pml4)
      {
        ghost var v, free := pt.Snap(), pt.pm.free;
        pt.TreeIsSound();
        SmallLeaf(pt.tree, pml4, vi);
        SnapTree(pt);
        pt.PageRemove(pml4, vi);
        SnapTree(pt);
        RemovedClean(v, free, pt.Snap(), pt.pm.free, pml4, vi);
        CleanTwice(old(pt.Snap()), v, pt.Snap(), pml4);
        OneRemoved(old(pt.tree), v, free, pt.Snap(), pt.pm.free, pml4, va, vi);
        vi := vi + PAGE_SIZE;
      }
    }

    /** Finds room for an anonymous area and adds it: its node, or NIL. */
    method CreateArea(size: nat, perm: nat) returns (node: int)
      requires Valid() && |vmas.nodes| >= 2 && SizeOk(vmas.Contents(), size) && perm < PAGE_SIZE
      modifies vmas, vmas.pool
      ensures Valid()
      ensures vmas.Contents() == AfterCreate(old(vmas.Contents()), size, perm)
      ensures node != NIL <==> CreateSucceeds(old(vmas.Contents()), size, perm)
      ensures node != NIL ==>
        && 0 <= node < vmas.pool.Length && CreateVa(old(vmas.Contents()), size) >= 0
        && vmas.pool[node].area.va == CreateVa(old(vmas.Contents()), size)
        && vmas.pool[node].area.len == RoundUp(size)
    {
      hide Partition, Listed, Owns, Counted, AllEncodable, InMemory, Tree.Sound, Spaced, VL.Chain, Visible,
           SmallOnly, Backed, AfterInsert, InsertSucceeds, NewArea;
      ghost var list := vmas.Contents();
      CreateMeaning(list, size, perm);
      RoundUpIsCeiling(size);
      var sizeR := RoundUp(size);
      var va := vmas.GetVmem(sizeR);
      if va < 0 {
        return NIL;
      }
      NewAreaBounds(va, size, perm);
      node := vmas.Insert(VmaAnon, va, size, perm, 0, 0);
    }

    /** Creates an anonymous area somewhere in user space, and maps it at once when asked to. */
    method SysVmaCreate(size: nat, perm: nat, populate: bool) returns (r: CreateResult)
      requires Valid() && |vmas.nodes| >= 2 && SizeOk(vmas.Contents(), size) && perm < PAGE_SIZE
      modifies vmas, vmas.pool
      modifies pt`tree, pt.pm`pageFreeList, pt.pm`free, pt.pm`owned, pt.pm.pages, pt.pm.words, pt.pm.bytes
      ensures Valid()
      ensures vmas.Contents() == AfterCreate(old(vmas.Contents()), size, Or(perm, PAGE_USER))
      ensures r == Failed <==> !CreateSucceeds(old(vmas.Contents()), size, Or(perm, PAGE_USER))
      ensures r == Failed ==> pt.tree == old(pt.tree) && View() == old(View())
      ensures r == CreatePanic ==> pt.pm.free == []
      ensures r == CreatePanic ==>
        NoMemoryFor(old(pt.Snap()), pml4, old(vmas.Contents()), Create(size, perm, populate))
      ensures old(Coherent()) ==>
        NoMemoryFor(old(pt.Snap()), pml4, old(vmas.Contents()), Create(size, perm, populate)) ==> r == CreatePanic
      ensures r != CreatePanic ==> Clean(old(pt.Snap()), pt.Snap(), pml4)
      ensures r.Created? ==>
        && r.va == CreateVa(old(vmas.Contents()), size)
        && View() == if populate
                     then PopulateView(old(View()), pml4, r.va, RoundUp(size) / PAGE_SIZE, Or(perm, PAGE_USER))
                     else old(View())
      ensures r != CreatePanic && old(Coherent()) ==>
        (Coherent() <==> Harmless(old(vmas.Contents()), Create(size, perm, populate)))
    {
      hide Partition, Listed, Owns, Counted, AllEncodable, InMemory, Tree.Sound, Spaced, VL.Chain, Visible, ViewOf,
           SmallOnly, Backed, AfterCreate, CreateSucceeds, CreateHides, CoherentIn, Clean, Weight, LowSlots,
           NoMemoryFor, NoneMapped, Cost, TablesFor, PopulateView, Granted;
      ghost var list := vmas.Contents();
      UserPerm(perm);
      CreateMeaning(list, size, Or(perm, PAGE_USER));
      CleanNothing(pt.Snap(), pt.Snap(), pml4);
      CreateNeeds(pt.Snap(), pml4, list, size, perm, populate);
      ghost var v, view := pt.Snap(), View();
      var node := CreateArea(size, Or(perm, PAGE_USER));
      CreateCoherent(pt.tree, pml4, list, size, Or(perm, PAGE_USER));
      if node == NIL {
        return Failed;
      }
      var va, len := vmas.pool[node].area.va, vmas.pool[node].area.len;
      if populate {
        NewRangeGranted(list, size, Or(perm, PAGE_USER));
        VacantIsUnmapped(v.tree, pml4, v.bytes, list, size, Or(perm, PAGE_USER));
        var ok := MapPopulate(va, len, Or(perm, PAGE_USER));
        if !ok {
          return CreatePanic;
        }
        if size > 0 && CreateHides(list, size) {
          ExposedPage(old(View()), pt.tree, pml4, pt.pm.bytes[..], vmas.areas, va, size, Or(perm, PAGE_USER));
        }
      }
      return Created(va);
    }

    /** Takes the range [from, to) out of the area of a node: the area goes, shrinks, or is split, in which
        case its rear part becomes a new area. Lengths are computed modulo 2^64. */
    method CutArea(node: nat, from: nat, to: nat, ghost i: nat)
      requires Valid() && |vmas.nodes| >= 2 && i < |vmas.areas| && i < |vmas.nodes| && node == vmas.nodes[i]
      requires Cuttable(vmas.Contents(), i, from, to) && from % PAGE_SIZE == 0 && to % PAGE_SIZE == 0
      requires from == vmas.areas[i].va ==> from <= to
      modifies vmas, vmas.pool
      ensures Valid()
      ensures Cuttable(old(vmas.Contents()), i, from, to)
      ensures vmas.Contents() == AfterCut(old(vmas.Contents()), i, from, to)
    {
      hide PageTables.Valid, VL.VmaList.Valid, VL.VmaList.Contents, Spaced, Visible, SmallOnly, Backed, AfterInsert,
           AfterUnuse, NewArea, AfterCut, Wrap;
      ghost var list, areas := vmas.Contents(), vmas.areas;
      vmas.Shape();
      CutMeaning(list, i, from, to);
      CutUnfolded(list, i, from, to);
      vmas.NodeAt(i);
      var a := vmas.pool[node].area;
      CutSizes(a.va, a.len, from, to);
      var sizeRounded := Wrap(to - from);
      if from == a.va && sizeRounded == a.len {
        vmas.MakeUnused(node, i);
      } else if from == a.va {
        TrimAligned(areas, i, from, to, to, a.End() - to);
        vmas.Shrink(node, to, Wrap(a.len - sizeRounded), i);
      } else if to == a.va + a.len {
        TrimAligned(areas, i, from, to, a.va, from - a.va);
        vmas.Shrink(node, a.va, Wrap(a.len - sizeRounded), i);
        assert a.(va := a.va, len := from - a.va) == a.(len := from - a.va);
      } else {
        SplitArea(node, from, to, sizeRounded, i);
      }
      vmas.Shape();
    }

    /** Takes a range out of the middle of an area. */
    method SplitArea(node: nat, from: nat, to: nat, sizeRounded: nat, ghost i: nat)
      requires Valid() && |vmas.nodes| >= 2 && i < |vmas.areas| && i < |vmas.nodes| && node == vmas.nodes[i]
      requires Cuttable(vmas.Contents(), i, from, to) && from % PAGE_SIZE == 0 && to % PAGE_SIZE == 0
      requires vmas.areas[i].va < from && to < vmas.areas[i].End() && sizeRounded == Wrap(to - from)
      modifies vmas, vmas.pool
      ensures Valid()
      ensures Cuttable(old(vmas.Contents()), i, from, to)
      ensures vmas.Contents() == AfterCut(old(vmas.Contents()), i, from, to)
    {
      hide PageTables.Valid, VL.VmaList.Valid, VL.VmaList.Contents, Spaced, Visible, SmallOnly, Backed, AfterInsert,
           AfterUnuse, NewArea, AfterCut, Wrap;
      ghost var list, areas := vmas.Contents(), vmas.areas;
      vmas.Shape();
      CutMeaning(list, i, from, to);
      CutUnfolded(list, i, from, to);
      vmas.NodeAt(i);
      var a := vmas.pool[node].area;
      AlignedArea(areas, i);
      MultipleDifference(from, a.va);
      ShrunkSpaced(areas, i, from);
      CutSizes(a.va, a.len, from, to);
      var lenNew := a.va + a.len - to;
      vmas.Shrink(node, a.va, Wrap(a.len - sizeRounded - lenNew), i);
      assert a.(va := a.va, len := from - a.va) == a.(len := from - a.va);
      vmas.Shape();
      var tail := vmas.Insert(a.kind, to, lenNew, a.perm, 0, 0);
      vmas.Shape();
    }

    /** Gives up the page-rounded range inside [va, va + size), which must lie in one area. */
    method SysVmaDestroy(va: nat, size: nat) returns (r: DestroyResult)
      requires Valid() && |vmas.nodes| >= 2 && va + size < WORD_LIMIT
      modifies vmas, vmas.pool
      modifies pt`tree, pt.pm`pageFreeList, pt.pm`free, pt.pm`owned, pt.pm.pages, pt.pm.words, pt.pm.bytes
      ensures Valid()
      ensures vmas.Contents() == AfterDestroy(old(vmas.Contents()), va, size)
      ensures r == DestroyPanic <==> Ends(old(vmas.Contents()), Destroy(va, size), 0)
      ensures r == DestroyPanic <==>
        match Find(old(vmas.areas), va)
        case None => true
        case Some(i) => RoundDown(va + size) > old(vmas.areas)[i].End()
      ensures r == DestroyPanic ==> pt.tree == old(pt.tree) && View() == old(View())
      ensures Clean(old(pt.Snap()), pt.Snap(), pml4)
      ensures r == Destroyed ==>
        var i, from, to := Find(old(vmas.areas), va).value, RoundUp(va), RoundDown(va + size);
        && AreasAfterCut(old(vmas.areas), old(HasSpareIn(vmas.Contents())), i, from, to, vmas.areas)
        && LeavesWithout(old(pt.tree), pt.tree, pml4, from, to)
        && pt.pm.bytes[..] == old(pt.pm.bytes[..])
        && (old(Coherent()) ==>
              (Coherent() <==> !(TailLost(old(vmas.areas), old(HasSpareIn(vmas.Contents())), i, from, to) &&
                                 MappedIn(old(pt.tree), pml4, Max(from, to), old(vmas.areas)[i].End()))))
    {
      hide PageTables.Valid, VL.VmaList.Valid, VL.VmaList.Contents, Spaced, Visible, SmallOnly, Backed, PermAt,
           MappedIn, CoherentIn, AfterCut, AfterDestroy, ViewOf, Wrap, RoundUp, RoundDown, LeavesWithout,
           AreasAfterCut, TailLost, Max, Clean, Weight, LowSlots;
      ghost var list, areas, t := vmas.Contents(), vmas.areas, pt.tree;
      CleanNothing(pt.Snap(), pt.Snap(), pml4);
      vmas.Shape();
      DestroyUnfolded(list, va, size, 0);
      DestroyMeaning(list, va, size);
      var node := vmas.Lookup(va);
      if node == NIL {
        return DestroyPanic;
      }
      ghost var i := Find(areas, va).value;
      LookupBelowTop(areas, va, i);
      RoundUpIsCeiling(va);
      var vaStart, vaEnd := RoundUp(va), RoundDown(va + size);
      var sizeRounded := Wrap(vaEnd - vaStart);
      if vaEnd > vmas.pool[node].area.va + vmas.pool[node].area.len {
        return DestroyPanic;
      }
      DestroyBounds(list, va, size, i);
      vmas.NodeAt(i);
      CutArea(node, vaStart, vaEnd, i);
      EndsWhereExpected(vaStart, vaEnd);
      vmas.Shape();
      UnmapPages(vaStart, sizeRounded);
      CutCoherent(t, pt.tree, pml4, areas, HasSpareIn(list), i, vaStart, vaEnd, vmas.areas);
      return Destroyed;
    }

    /** Decides what becomes of a page fault: the environment goes on, is destroyed, or the kernel stops. */
    method PageFaultHandler(faultVa: nat, isUser: bool, isProtection: bool, kernelVma: nat) returns (r: HandlerResult)
      requires Valid()
      modifies pt`tree, pt.pm`pageFreeList, pt.pm`free, pt.pm`owned, pt.pm.pages, pt.pm.words, pt.pm.bytes
      ensures Valid() && (old(Coherent()) ==> Coherent())
      ensures !isUser && RoundDown(faultVa) >= kernelVma ==> r == KernelPanic
      ensures isUser && isProtection ==> r == DestroyEnv
      ensures !(!isUser && RoundDown(faultVa) >= kernelVma) && !(isUser && isProtection) ==>
        (r == DestroyEnv <==> Find(vmas.areas, RoundDown(faultVa)) == None)
      ensures r == KernelPanic <==>
        || (!isUser && RoundDown(faultVa) >= kernelVma)
        || (!(isUser && isProtection) && Find(vmas.areas, RoundDown(faultVa)).Some? &&
            old(pt.Snap()).spare < Cost(old(pt.Snap()), 1, PathTo(pml4, RoundDown(faultVa))))
      ensures r == KernelPanic ==> (!isUser && RoundDown(faultVa) >= kernelVma) || pt.pm.free == []
      ensures r != KernelPanic || (!isUser && RoundDown(faultVa) >= kernelVma) ==>
        Clean(old(pt.Snap()), pt.Snap(), pml4)
      ensures r == Resume ==> View() == FaultIn(old(View()), pml4, vmas.areas, image, RoundDown(faultVa))
      ensures r != Resume ==> View() == old(View())
    {
      hide Partition, Listed, Owns, Counted, AllEncodable, InMemory, Tree.Sound, Spaced, SmallOnly, CoherentIn,
           ViewOf, VL.Chain, Visible, Clean, Weight, LowSlots, Cost, PathTo, Spent;
      var aligned := RoundDown(faultVa);
      CleanNothing(pt.Snap(), pt.Snap(), pml4);
      if !isUser && aligned >= kernelVma {
        return KernelPanic;
      }
      if !isUser || !isProtection {
        var loaded := PageFaultLoadPage(aligned);
        if loaded == Loaded {
          return Resume;
        } else if loaded == Panic {
          return KernelPanic;
        }
      }
      return DestroyEnv;
    }

    /** Handles one event: whether the run goes on. */
    method Handle(e: Event, kernelVma: nat) returns (o: Outcome)
      requires Valid() && (|vmas.nodes| >= 2 || e.Fault?) && EventOk(e)
      modifies vmas, vmas.pool
      modifies pt`tree, pt.pm`pageFreeList, pt.pm`free, pt.pm`owned, pt.pm.pages, pt.pm.words, pt.pm.bytes
      ensures Valid() && vmas.Contents() == AfterEvent(old(vmas.Contents()), e)
      ensures o == Finished || o == Ended || (o == OutOfMemory && pt.pm.free == [])
      ensures o == OutOfMemory ==>
        !Ends(old(vmas.Contents()), e, kernelVma) && NoMemoryFor(old(pt.Snap()), pml4, old(vmas.Contents()), e)
      ensures old(Coherent()) && !Ends(old(vmas.Contents()), e, kernelVma) ==>
        NoMemoryFor(old(pt.Snap()), pml4, old(vmas.Contents()), e) ==> o == OutOfMemory
      ensures o != OutOfMemory ==> Clean(old(pt.Snap()), pt.Snap(), pml4)
      ensures o == Ended ==> Ends(old(vmas.Contents()), e, kernelVma) && vmas.Contents() == old(vmas.Contents())
      ensures o == Finished ==> !Ends(old(vmas.Contents()), e, kernelVma)
      ensures o != OutOfMemory && old(Coherent()) && Harmless(old(vmas.Contents()), e) ==> Coherent()
    {
      hide Partition, Listed, Owns, Counted, AllEncodable, InMemory, Tree.Sound, Spaced, SmallOnly, CoherentIn,
           ViewOf, VL.Chain, Visible, Backed, AfterCreate, AfterDestroy, AreasAfterCut, LeavesWithout,
           CreateSucceeds, AfterEvent, Ends, Harmless, TailLost, MappedIn, PopulateView, FaultIn, RoundUp, RoundDown,
           Clean, Weight, LowSlots, NoMemoryFor, Cost, PathTo;
      o := Finished;
      match e {
        case Create(size, perm, populate) =>
          CreateUnfolded(vmas.Contents(), size, perm, populate, kernelVma);
          var r := SysVmaCreate(size, perm, populate);
          if r == CreatePanic {
            o := OutOfMemory;
          }
        case Destroy(va, size) =>
          DestroyNeedsNothing(pt.Snap(), pml4, vmas.Contents(), va, size);
          DestroyUnfolded(vmas.Contents(), va, size, kernelVma);
          var r := SysVmaDestroy(va, size);
          if r == DestroyPanic {
            o := Ended;
          }
        case Fault(va, isUser, isProtection) =>
          FaultNeeds(pt.Snap(), pml4, vmas.Contents(), va, isUser, isProtection);
          FaultUnfolded(vmas.Contents(), va, isUser, isProtection, kernelVma);
          var r := PageFaultHandler(va, isUser, isProtection, kernelVma);
          if r == KernelPanic && (isUser || RoundDown(va) < kernelVma) {
            o := OutOfMemory;
          } else if r != Resume {
            o := Ended;
          }
      }
    }

    /** Any sequence of system calls and faults, handled one after the other until one of them ends the run. The whole
        invariant holds then, and the list of areas is what the calls say. Tables and areas are coherent as long as
        no call on the way has populated an area that no lookup sees, or lost the rear part of one. */
    method Run(events: seq<Event>, kernelVma: nat) returns (o: Outcome, at: nat)
      requires Valid() && forall e :: e in events ==> EventOk(e)
      modifies vmas, vmas.pool
      modifies pt`tree, pt.pm`pageFreeList, pt.pm`free, pt.pm`owned, pt.pm.pages, pt.pm.words, pt.pm.bytes
      ensures Valid() && at <= |events| && (o == Finished <==> at == |events|)
      ensures o != OutOfMemory ==> vmas.Contents() == AfterAll(old(vmas.Contents()), events[..at])
      ensures forall k :: 0 <= k < at ==> GoesOn(old(vmas.Contents()), events, k, kernelVma)
      ensures o == OneNodeLeft ==> |vmas.Contents()| == 1 && !events[at].Fault?
      ensures o == Ended ==> Ends(vmas.Contents(), events[at], kernelVma)
      ensures o == OutOfMemory ==> pt.pm.free == []
      ensures o != OutOfMemory ==> Clean(old(pt.Snap()), pt.Snap(), pml4)
      ensures o != OutOfMemory && old(Coherent()) && Intact(old(vmas.Contents()), events[..at]) ==> Coherent()
    {
      hide Partition, Listed, Owns, Counted, AllEncodable, InMemory, Tree.Sound, Spaced, SmallOnly, CoherentIn,
           ViewOf, VL.Chain, Visible, Backed, EventOk, AfterAll, AfterEvent, Ends, Harmless, Intact, GoesOn, Clean,
           Weight, LowSlots, NoMemoryFor;
      ghost var list := vmas.Contents();
      NoEvents(list, events);
      CleanNothing(pt.Snap(), pt.Snap(), pml4);
      at := 0;
      while at < |events|
        invariant 0 <= at <= |events| && Valid()
        invariant vmas.Contents() == AfterAll(list, events[..at])
        invariant Clean(old(pt.Snap()), pt.Snap(), pml4)
        invariant forall k :: 0 <= k < at ==> GoesOn(list, events, k, kernelVma)
        invariant old(Coherent()) && Intact(list, events[..at]) ==> Coherent()
      {
        var two := vmas.HasTwo();
        if !two && !events[at].Fault? {
          return OneNodeLeft, at;
        }
        OneMoreEvent(list, events, at, kernelVma);
        ghost var v := pt.Snap();
        EndIsHarmless(vmas.Contents(), events[at], kernelVma);
        o := Handle(events[at], kernelVma);
        if o != OutOfMemory {
          CleanTwice(old(pt.Snap()), v, pt.Snap(), pml4);
        }
        if o != Finished {
          return;
        }
        at := at + 1;
      }
      o := Finished;
    }

    // ---- Loading a program ----

    /** Adds the area of a program segment, from which its pages are filled on demand. */
    method LoadSegment(p: ProgramSegment) returns (ok: bool)
      requires Valid() && |vmas.nodes| >= 2 && SegmentFits(p)
      modifies vmas, vmas.pool
      ensures Valid() && (old(Coherent()) ==> Coherent())
      ensures vmas.Contents() == AfterInsert(old(vmas.Contents()), SegmentArea(p))
      ensures ok <==> InsertSucceeds(old(vmas.Contents()), SegmentArea(p))
    {
      hide Partition, Listed, Owns, Counted, AllEncodable, InMemory, Tree.Sound, Spaced, SmallOnly, VL.Chain, Visible,
           Backed, AfterInsert, InsertSucceeds, NewArea, CoherentIn;
      SegmentIsBacked(p);
      InsertionMeaning(vmas.Contents(), SegmentArea(p));
      InsertKeepsCoherent(pt.tree, pml4, vmas.Contents(), SegmentArea(p));
      var node := vmas.Insert(VmaBinary, p.memVa, p.memSize, Or(PAGE_WRITE, PAGE_USER), p.fileVa, p.fileSize);
      ok := node != NIL;
    }

    /** Adds an anonymous page, whether or not it fits. */
    method AddPage(va: nat, perm: nat)
      requires Valid() && |vmas.nodes| >= 2 && va % PAGE_SIZE == 0 && va + PAGE_SIZE <= USER_TOP && perm < PAGE_SIZE
      modifies vmas, vmas.pool
      ensures Valid() && (old(Coherent()) ==> Coherent())
      ensures vmas.Contents() == AfterInsert(old(vmas.Contents()), PageArea(va, perm))
    {
      hide Partition, Listed, Owns, Counted, AllEncodable, InMemory, Tree.Sound, Spaced, SmallOnly, VL.Chain, Visible,
           Backed, AfterInsert, InsertSucceeds, NewArea, CoherentIn;
      PageIsBacked(va, perm);
      InsertionMeaning(vmas.Contents(), PageArea(va, perm));
      InsertKeepsCoherent(pt.tree, pml4, vmas.Contents(), PageArea(va, perm));
      var node := vmas.Insert(VmaAnon, va, PAGE_SIZE, perm, 0, 0);
    }

    /** Sets up the areas of a program: its segments, one page of stack, and two more pages. False where the original
        panics: a segment is rejected, or no frame is free for a page that is then not used. */
    method LoadIcode(segments: seq<ProgramSegment>) returns (ok: bool)
      requires Valid() && |vmas.nodes| >= 5 && forall i :: 0 <= i < |segments| ==> SegmentFits(segments[i])
      modifies vmas, vmas.pool
      modifies pt`tree, pt.pm`pageFreeList, pt.pm`free, pt.pm`owned, pt.pm.pages, pt.pm.words, pt.pm.bytes
      ensures Valid() && (old(Coherent()) ==> Coherent()) && pt.tree == old(pt.tree)
      ensures ok ==> OneWasted(old(pt.Snap()), pt.Snap())
      ensures ok <==> old(pt.pm.free) != [] && SegmentsSucceed(old(vmas.Contents()), segments)
      ensures ok ==> vmas.Contents() == AfterInserts(old(vmas.Contents()), ProgramAreas(segments))
    {
      hide Partition, Listed, Owns, Counted, AllEncodable, InMemory, Tree.Sound, Spaced, SmallOnly, VL.Chain,
           Visible, Backed, AfterInsert, InsertSucceeds, NewArea, CoherentIn, AfterInserts, ProgramAreas,
           SegmentFits, SegmentArea, Weight, LowSlots, OneWasted;
      ghost var list, img := vmas.Contents(), ProgramAreas(segments);
      ProgramAreasAre(segments);
      NothingInserted(list, img);
      var i := 0;
      while i < |segments|
        invariant 0 <= i <= |segments| && Valid() && pt.Snap() == old(pt.Snap()) && pt.pm.free == old(pt.pm.free)
        invariant old(Coherent()) ==> Coherent()
        invariant vmas.Contents() == AfterInserts(list, img[..i]) && |vmas.Contents()| == |list|
        invariant forall k :: 0 <= k < i ==> InsertSucceeds(AfterInserts(list, img[..k]), img[k])
      {
        OneMoreInsert(list, img, i);
        InsertLength(vmas.Contents(), img[i]);
        ok := LoadSegment(segments[i]);
        if !ok {
          return;
        }
        i := i + 1;
      }
      var page := AllocUnused();
      if page == NIL {
        return false;
      }
      ok := true;
      AddStack(list, segments);
    }

    /** Allocates a page and forgets it. */
    method AllocUnused() returns (page: int)
      requires Valid()
      modifies pt`tree, pt.pm`pageFreeList, pt.pm`free, pt.pm`owned, pt.pm.pages, pt.pm.words, pt.pm.bytes
      ensures Valid() && pt.tree == old(pt.tree) && (page == NIL <==> old(pt.pm.free) == [])
      ensures page != NIL ==> OneWasted(old(pt.Snap()), pt.Snap())
    {
      hide PageTables.Valid, Extended, Tree.Unused, Weight, LowSlots;
      page := pt.AllocPage(false);
    }

    /** The stack page and the two others of a program that has been loaded. */
    method AddStack(ghost list: seq<Area>, ghost segments: seq<ProgramSegment>)
      requires Valid() && |vmas.nodes| >= 5 && forall i :: 0 <= i < |segments| ==> SegmentFits(segments[i])
      requires vmas.Contents() == AfterInserts(list, ProgramAreas(segments)[..|segments|])
      modifies vmas, vmas.pool
      ensures Valid() && (old(Coherent()) ==> Coherent())
      ensures vmas.Contents() == AfterInserts(list, ProgramAreas(segments))
    {
      hide Partition, Listed, Owns, Counted, AllEncodable, InMemory, Tree.Sound, Spaced, SmallOnly, VL.Chain, Visible,
           Backed, AfterInsert, NewArea, CoherentIn, AfterInserts, ProgramAreas, SegmentFits, PageArea;
      ghost var n, img := |segments|, ProgramAreas(segments);
      ProgramAreasAre(segments);
      OneMoreInsert(list, img, n);
      InsertLength(vmas.Contents(), img[n]);
      AddPage(USTACK_TOP - PAGE_SIZE, Or(PAGE_WRITE, PAGE_USER));
      OneMoreInsert(list, img, n + 1);
      InsertLength(vmas.Contents(), img[n + 1]);
      AddPage(UTEMP, PAGE_USER);
      OneMoreInsert(list, img, n + 2);
      AddPage(UTEMP + PAGE_SIZE, Or(PAGE_WRITE, PAGE_USER));
      assert img[..n + 3] == img;
    }

    // ---- Running into a sequence of pages ----

    /** Faults at the given page addresses, one after the other; false when memory runs out. */
    method FaultSequence(order: seq<nat>) returns (ok: bool)
      requires Valid() && forall x :: x in order ==> x % PAGE_SIZE == 0 && Find(vmas.areas, x).Some?
      modifies pt`tree, pt.pm`pageFreeList, pt.pm`free, pt.pm`owned, pt.pm.pages, pt.pm.words, pt.pm.bytes
      ensures Valid() && (old(Coherent()) ==> Coherent())
      ensures ok ==> View() == FaultAll(old(View()), pml4, vmas.areas, image, order)
      ensures !ok ==> pt.pm.free == []
      ensures var enough := old(pt.Snap()).spare >= Cost(old(pt.Snap()), |order|, PathsTo(pml4, order));
        && (enough ==> ok)
        && (NewPages(old(View()), pml4, order) ==> (ok <==> enough))
      ensures ok ==> Clean(old(pt.Snap()), pt.Snap(), pml4)
    {
      hide Partition, Listed, Owns, Counted, AllEncodable, InMemory, Tree.Sound, Spaced, SmallOnly, CoherentIn,
           ViewOf, VL.Chain, Visible, Backed, FaultAll, FaultIn, Clean, Spent, Cost, PathTo, PathsTo, NewPages,
           Weight, LowSlots;
      ghost var v0, exact := pt.Snap(), NewPages(View(), pml4, order);
      CleanNothing(v0, v0, pml4);
      SpentNothing(v0, exact);
      NoPaths(pml4, order);
      NoFaults(View(), pml4, vmas.areas, image, order);
      var i := 0;
      while i < |order|
        invariant 0 <= i <= |order| && Valid() && (old(Coherent()) ==> Coherent())
        invariant Clean(v0, pt.Snap(), pml4) && Spent(v0, pt.Snap(), i, PathsTo(pml4, order[..i]), exact)
        invariant View() == FaultAll(old(View()), pml4, vmas.areas, image, order[..i])
      {
        OneMoreFault(old(View()), pml4, vmas.areas, image, order, i);
        ghost var v1, view1 := pt.Snap(), View();
        NextIsNew(old(View()), pml4, vmas.areas, image, order, i);
        OneMorePath(pml4, order, i);
        var r := PageFaultLoadPage(order[i]);
        if r != Loaded {
          SpentLoosely(v0, v1, i, PathsTo(pml4, order[..i]), exact, false);
          SpentShort(v0, v1, i, PathsTo(pml4, order[..i]), PathTo(pml4, order[i]), |order|, PathsTo(pml4, order));
          return false;
        }
        CleanTwice(v0, v1, pt.Snap(), pml4);
        SpentLoosely(v1, pt.Snap(), 1, PathTo(pml4, order[i]), PageRegion(pml4, order[i]) !in view1, exact);
        SpentMore(v0, v1, pt.Snap(), i, PathsTo(pml4, order[..i]), PathTo(pml4, order[i]), exact);
        i := i + 1;
      }
      assert order[..i] == order;
      if exact {
        SpentEnough(v0, pt.Snap(), |order|, PathsTo(pml4, order));
      }
      return true;
    }
  }

  // ---- Lazy and eager population agree ----

  /** The view after `n` pages from `va` on have been mapped to zero pages. */
  ghost function PopulateView(view: map<Region, PageView>, root: nat, va: nat, n: nat, perm: nat): map<Region, PageView>
    decreases n
  {
    if n == 0 then view
    else
      var r := PageRegion(root, va + (n - 1) * PAGE_SIZE);
      PopulateView(view, root, va, n - 1, perm)[r := PageView(perm, ZeroPage())]
  }

  lemma NothingPopulated(view: map<Region, PageView>, root: nat, va: nat, perm: nat)
    ensures PopulateView(view, root, va, 0, perm) == view
  {
  }

  lemma OneMorePopulated(view: map<Region, PageView>, root: nat, va: nat, n: nat, perm: nat)
    ensures PopulateView(view, root, va, n + 1, perm) ==
      PopulateView(view, root, va, n, perm)[PageRegion(root, va + n * PAGE_SIZE) := PageView(perm, ZeroPage())]
  {
  }

  /** None of n pages from `va` on is mapped. */
  ghost predicate NoneMapped(view: map<Region, PageView>, root: nat, va: nat, n: nat) {
    forall j :: 0 <= j < n ==> PageRegion(root, va + j * PAGE_SIZE) !in view
  }

  lemma StillUnmapped(view: map<Region, PageView>, root: nat, va: nat, total: nat, perm: nat, n: nat)
    requires va % PAGE_SIZE == 0 && n < total
    ensures NoneMapped(view, root, va, total) ==>
      PageRegion(root, va + n * PAGE_SIZE) !in PopulateView(view, root, va, n, perm)
    ensures PathTo(root, va + n * PAGE_SIZE) == PathOf(root, VpnPlus(va, n), false)
  {
    PopulateAt(view, root, va, n, perm, PageRegion(root, va + n * PAGE_SIZE));
  }

  lemma NoTables(root: nat, va: nat)
    ensures TablesFor(root, va, 0) == {}
  {
  }

  lemma InViewIff(t: Tree, root: nat, bs: seq<byte>, r: Region)
    requires r.root == root
    ensures r in ViewOf(t, root, bs) <==> r in t.Leaves()
  {
  }

  /** Different pages, and none of them mapped. */
  ghost predicate NewPages(view: map<Region, PageView>, root: nat, order: seq<nat>) {
    && (forall i, j :: 0 <= i < j < |order| ==> order[i] != order[j])
    && (forall i :: 0 <= i < |order| ==> PageRegion(root, order[i]) !in view)
  }

  lemma NextIsNew(view: map<Region, PageView>, root: nat, areas: seq<Area>, image: int -> byte, order: seq<nat>, i: nat)
    requires i < |order| && forall x :: x in order ==> x % PAGE_SIZE == 0
    ensures NewPages(view, root, order) ==>
      PageRegion(root, order[i]) !in FaultAll(view, root, areas, image, order[..i])
  {
    var r := PageRegion(root, order[i]);
    assert order[i] in order && r.index * PAGE_SIZE == order[i];
    forall x | x in order[..i] ensures x in order {
    }
    FaultAllAt(view, root, areas, image, order[..i], r);
  }

  lemma NoPaths(root: nat, order: seq<nat>)
    ensures PathsTo(root, order[..0]) == {}
  {
  }

  /** The event needs more frames than are free: a page for each address it maps, and the tables that are missing. */
  ghost predicate NoMemoryFor(v: Snapshot, root: nat, list: seq<Area>, e: Event) {
    match e
    case Create(size, perm, populate) =>
      && populate && CreateSucceeds(list, size, Or(perm, PAGE_USER))
      && (var va, n := CreateVa(list, size), RoundUp(size) / PAGE_SIZE;
          va >= 0 && v.spare < Cost(v, n, TablesFor(root, va, n)))
    case Destroy(_, _) => false
    case Fault(va, _, _) =>
      Find(Visible(list), RoundDown(va)).Some? && v.spare < Cost(v, 1, PathTo(root, RoundDown(va)))
  }

  lemma CreateNeeds(v: Snapshot, root: nat, list: seq<Area>, size: nat, perm: nat, populate: bool)
    ensures NoMemoryFor(v, root, list, Create(size, perm, populate)) <==>
      && populate && CreateSucceeds(list, size, Or(perm, PAGE_USER))
      && (var va, n := CreateVa(list, size), RoundUp(size) / PAGE_SIZE;
          va >= 0 && v.spare < Cost(v, n, TablesFor(root, va, n)))
  {
  }

  lemma DestroyNeedsNothing(v: Snapshot, root: nat, list: seq<Area>, va: nat, size: nat)
    ensures !NoMemoryFor(v, root, list, Destroy(va, size))
  {
  }

  lemma FaultNeeds(v: Snapshot, root: nat, list: seq<Area>, va: nat, isUser: bool, isProtection: bool)
    ensures NoMemoryFor(v, root, list, Fault(va, isUser, isProtection)) <==>
      Find(Visible(list), RoundDown(va)).Some? && v.spare < Cost(v, 1, PathTo(root, RoundDown(va)))
  {
  }

  /** In a coherent state nothing is mapped where a new area goes. */
  lemma VacantIsUnmapped(t: Tree, root: nat, bs: seq<byte>, list: seq<Area>, size: nat, perm: nat)
    requires GoodList(list) && SizeOk(list, size) && perm < PAGE_SIZE && CreateVa(list, size) >= 0
    ensures CoherentIn(t, root, Visible(list)) ==>
      NoneMapped(ViewOf(t, root, bs), root, CreateVa(list, size), RoundUp(size) / PAGE_SIZE)
  {
    hide GoodList, CreateSucceeds, CreateHides, AfterCreate, CreateVa, Visible, RoundUp, PermAt, Vacant, ViewOf;
    CreateMeaning(list, size, perm);
    var areas, va, n := Visible(list), CreateVa(list, size), RoundUp(size) / PAGE_SIZE;
    forall j | 0 <= j < n && CoherentIn(t, root, areas)
      ensures PageRegion(root, va + j * PAGE_SIZE) !in ViewOf(t, root, bs)
    {
      var r := PageRegion(root, va + j * PAGE_SIZE);
      assert r.index * PAGE_SIZE == va + j * PAGE_SIZE;
      VacantIsUngranted(areas, va, RoundUp(size), va + j * PAGE_SIZE);
      InViewIff(t, root, bs, r);
    }
  }

  /** Page n of a range. */
  lemma PageAt(va: nat, size: nat, n: nat)
    requires va % PAGE_SIZE == 0 && size % PAGE_SIZE == 0 && n * PAGE_SIZE < size
    ensures (va + n * PAGE_SIZE) % PAGE_SIZE == 0 && n + 1 <= size / PAGE_SIZE
    ensures PageRegion(0, va + n * PAGE_SIZE).index * PAGE_SIZE == va + n * PAGE_SIZE
  {
  }

  /** The view after faults at the given addresses, in this order. */
  ghost function FaultAll(view: map<Region, PageView>, root: nat, areas: seq<Area>, image: int -> byte,
                          order: seq<nat>):
    map<Region, PageView>
  {
    if order == [] then view
    else FaultIn(FaultAll(view, root, areas, image, order[..|order| - 1]), root, areas, image, order[|order| - 1])
  }

  lemma NoFaults(view: map<Region, PageView>, root: nat, areas: seq<Area>, image: int -> byte, order: seq<nat>)
    ensures FaultAll(view, root, areas, image, order[..0]) == view
  {
  }

  lemma OneMoreFault(view: map<Region, PageView>, root: nat, areas: seq<Area>, image: int -> byte, order: seq<nat>,
                     i: nat)
    requires i < |order|
    ensures order[i] in order
    ensures FaultAll(view, root, areas, image, order[..i + 1]) ==
      FaultIn(FaultAll(view, root, areas, image, order[..i]), root, areas, image, order[i])
  {
    assert order[..i + 1][..i] == order[..i];
  }

  /** What the map m has at s. */
  ghost function At<K, V>(m: map<K, V>, s: K): Option<V> {
    if s in m then Some(m[s]) else None
  }

  lemma {:induction false} PopulateAt(view: map<Region, PageView>, root: nat, va: nat, n: nat, perm: nat, s: Region)
    requires va % PAGE_SIZE == 0
    ensures At(PopulateView(view, root, va, n, perm), s) ==
      if s.root == root && s.level == 0 && va <= s.index * PAGE_SIZE < va + n * PAGE_SIZE
      then Some(PageView(perm, ZeroPage())) else At(view, s)
    decreases n
  {
    if n > 0 {
      PopulateAt(view, root, va, n - 1, perm, s);
      assert (va + (n - 1) * PAGE_SIZE) / PAGE_SIZE * PAGE_SIZE == va + (n - 1) * PAGE_SIZE;
    }
  }

  lemma {:induction false} FaultAllAt(view: map<Region, PageView>, root: nat, areas: seq<Area>, image: int -> byte,
                                      order: seq<nat>, s: Region)
    requires forall x :: x in order ==> x % PAGE_SIZE == 0
    ensures var x := s.index * PAGE_SIZE;
      At(FaultAll(view, root, areas, image, order), s) ==
        if s.root == root && s.level == 0 && x in order && Find(areas, x).Some?
        then var a := areas[Find(areas, x).value]; Some(PageView(a.perm, Content(a, image, x)))
        else At(view, s)
  {
    if order != [] {
      var front, last := order[..|order| - 1], order[|order| - 1];
      assert order == front + [last] && last in order;
      assert forall x :: x in order <==> x in front || x == last;
      FaultAllAt(view, root, areas, image, front, s);
      assert last / PAGE_SIZE * PAGE_SIZE == last;
    }
  }

  /** A sequence of page addresses that lie in an area and reach each of its pages, in any order and
      as often as one likes. */
  ghost predicate CoversPages(a: Area, order: seq<nat>) {
    && (forall x :: x in order ==> x % PAGE_SIZE == 0 && a.Covers(x))
    && (forall p: nat :: a.Covers(p * PAGE_SIZE) ==> p * PAGE_SIZE in order)
  }

  /** Faulting in the pages of an anonymous area, in any order, gives the program the same
      permissions and contents everywhere as populating the area at once. */
  lemma LazyEqualsEager(view: map<Region, PageView>, root: nat, areas: seq<Area>, image: int -> byte, i: nat,
                        order: seq<nat>)
    requires Spaced(areas) && i < |areas| && areas[i].kind == VmaAnon && CoversPages(areas[i], order)
    ensures FaultAll(view, root, areas, image, order) ==
      PopulateView(view, root, areas[i].va, areas[i].len / PAGE_SIZE, areas[i].perm)
  {
    var a := areas[i];
    assert Aligned(a);
    var l, e := FaultAll(view, root, areas, image, order), PopulateView(view, root, a.va, a.len / PAGE_SIZE, a.perm);
    forall s ensures At(l, s) == At(e, s) {
      var x := s.index * PAGE_SIZE;
      FaultAllAt(view, root, areas, image, order, s);
      PopulateAt(view, root, a.va, a.len / PAGE_SIZE, a.perm, s);
      if a.Covers(x) {
        FindUnique(areas, x, i);
        AnonContent(a, image, x);
      }
    }
    SameMaps(l, e);
  }

  lemma SameMaps<K(!new), V>(m: map<K, V>, n: map<K, V>)
    requires forall s :: At(m, s) == At(n, s)
    ensures m == n
  {
    forall s ensures s in m <==> s in n {
      assert At(m, s) == At(n, s);
    }
    forall s | s in m ensures m[s] == n[s] {
      assert At(m, s) == At(n, s);
    }
  }

  /** Once all pages of a program segment have been faulted in, in any order, every address of the area
      reads the byte of the file at its place in the segment, or zero where the file has none. */
  lemma SegmentReconstructed(view: map<Region, PageView>, root: nat, areas: seq<Area>, image: int -> byte, i: nat,
                             order: seq<nat>, x: nat)
    requires Spaced(areas) && i < |areas| && CoversPages(areas[i], order) && areas[i].Covers(x)
    ensures var view' := FaultAll(view, root, areas, image, order);
      var r := PageRegion(root, x);
      && r in view'
      && |view'[r].bytes| == PAGE_SIZE
      && view'[r].bytes[x % PAGE_SIZE] == SegmentByte(areas[i], image, x)
      && view'[r].perm == areas[i].perm
  {
    var p := x / PAGE_SIZE;
    assert Aligned(areas[i]);
    assert areas[i].Covers(p * PAGE_SIZE);
    FindUnique(areas, p * PAGE_SIZE, i);
    FaultAllAt(view, root, areas, image, order, PageRegion(root, x));
  }

  /** The page number and the entry region of a user address. */
  lemma UserPage(root: nat, va: nat)
    requires va % PAGE_SIZE == 0 && va < USER_TOP
    ensures Vpn(va) == va / PAGE_SIZE && Target(root, va, false) == PageRegion(root, va)
  {
  }

  /** In an address space of small pages a page is mapped by the leaf of its own region or not at all. */
  lemma SmallLeaf(t: Tree, root: nat, va: nat)
    requires t.WellFormed() && SmallOnly(t, root) && va % PAGE_SIZE == 0 && va < USER_TOP
    ensures t.LeafOf(root, Vpn(va)) ==
      if PageRegion(root, va) in t.Leaves() then Some(PageRegion(root, va)) else None
    ensures PageRegion(root, va) in t.Leaves() ==> PageRegion(root, va) !in t.fixed
  {
    UserPage(root, va);
    var r1 := RegionAt(root, Vpn(va), 1);
    assert t.IsLeaf(r1) <==> r1 in t.Leaves();
    assert t.IsLeaf(PageRegion(root, va)) <==> PageRegion(root, va) in t.Leaves();
  }

  lemma SnapTree(pt: PageTables)
    ensures pt.Snap().tree == pt.tree && pt.Snap().owned == pt.pm.owned
  {
  }

  lemma NoneLess(t: Tree, root: nat, from: nat, to: nat)
    requires to <= from
    ensures LeavesWithout(t, t, root, from, to)
  {
  }

  /** Removing one more page from the rest of a range. */
  lemma OneRemoved(t0: Tree, v: Snapshot, free: seq<Node>, v': Snapshot, free': seq<Node>, root: nat, from: nat,
                   va: nat)
    requires LeavesWithout(t0, v.tree, root, from, va) && from <= va < USER_TOP
    requires va % PAGE_SIZE == 0 && from % PAGE_SIZE == 0
    requires v.tree.WellFormed() && SmallOnly(v.tree, root) && Region(root, 4, 0) in v.tree.tables
    requires match v.tree.LeafOf(root, Vpn(va))
      case None => v' == v && free' == free
      case Some(r) => r in v.tree.entries && Unmapped(v, free, r, v', free')
    ensures LeavesWithout(t0, v'.tree, root, from, va + PAGE_SIZE)
    ensures SmallOnly(v'.tree, root) && Region(root, 4, 0) in v'.tree.tables
  {
    hide Tree.WellFormed, Tree.LeafOf, SmallOnly, LeavesWithout, Tree.Leaves, Vpn;
    SmallLeaf(v.tree, root, va);
    OneLess(t0, v.tree, v'.tree, root, from, va);
  }

  lemma RemovedClean(v: Snapshot, free: seq<Node>, v': Snapshot, free': seq<Node>, root: nat, va: nat)
    requires v'.tree.Unused(v'.owned) == v.tree.Unused(v.owned)
    requires match v.tree.LeafOf(root, Vpn(va))
      case None => v' == v && free' == free
      case Some(r) => r in v.tree.entries && Unmapped(v, free, r, v', free')
    ensures Clean(v, v', root) && (LowSlots(v.tree, root) ==> LowSlots(v'.tree, root))
  {
    hide Tree.Unused, Tree.Leaves, Tree.IsLeaf, Vpn;
  }

  lemma OneLess(t0: Tree, t: Tree, t': Tree, root: nat, from: nat, va: nat)
    requires LeavesWithout(t0, t, root, from, va) && from <= va && va % PAGE_SIZE == 0 && from % PAGE_SIZE == 0
    requires t'.fixed == t.fixed && t'.Leaves() == t.Leaves() - {PageRegion(root, va)}
    ensures LeavesWithout(t0, t', root, from, va + PAGE_SIZE)
    ensures SmallOnly(t, root) ==> SmallOnly(t', root)
  {
    forall r: Region
      ensures r == PageRegion(root, va) <==>
        r.root == root && r.level == 0 && va <= r.index * PAGE_SIZE < va + PAGE_SIZE
    {
    }
    forall r ensures r in t'.Leaves() <==>
      r in t0.Leaves() && !(r.root == root && r.level == 0 && from <= r.index * PAGE_SIZE < va + PAGE_SIZE)
    {
      assert r in t'.Leaves() <==> r in t.Leaves() && r != PageRegion(root, va);
    }
  }

  /** In an address space of small pages a fresh page can go anywhere. */
  lemma FreshTarget(t: Tree, root: nat, va: nat, page: nat)
    requires t.WellFormed() && SmallOnly(t, root) && va % PAGE_SIZE == 0 && va < USER_TOP
    requires forall s :: !t.Points(s, page)
    ensures !t.IsLeaf(RegionAt(root, Vpn(va), 1))
    ensures forall p :: p in t.tables ==> t.tables[p] != page
    ensures var r := PageRegion(root, va); r !in t.fixed && (r in t.entries ==> t.entries[r].frame != page)
  {
    var r, r1 := PageRegion(root, va), RegionAt(root, Vpn(va), 1);
    assert t.EntryOk(r);
    if t.IsLeaf(r1) {
      assert false;
    }
    assert r in t.fixed ==> t.IsLeaf(r) && r in t.Leaves();
    assert r in t.entries ==> t.IsLeaf(r) && r in t.Leaves() && (t.entries[r].frame == page ==> t.Points(r, page));
    forall p | p in t.tables ensures t.tables[p] != page {
      TablePoints(t, p);
    }
  }

  lemma MappedCoherent(t: Tree, t': Tree, root: nat, areas: seq<Area>, r: Region)
    requires r in t'.Leaves() && t'.Leaves() == t.Leaves()[r := t'.Leaves()[r]]
    requires PermAt(areas, r.index * PAGE_SIZE) == Some(t'.Leaves()[r].perm)
    ensures CoherentIn(t, root, areas) ==> CoherentIn(t', root, areas)
  {
  }

  lemma SameCoherent(t: Tree, t': Tree, root: nat, areas: seq<Area>)
    requires t'.Leaves() == t.Leaves()
    ensures CoherentIn(t, root, areas) ==> CoherentIn(t', root, areas)
  {
  }

  lemma AnonContent(a: Area, image: int -> byte, va: nat)
    requires a.kind != VmaBinary
    ensures Content(a, image, va) == ZeroPage()
  {
  }

  lemma AreaOfPage(areas: seq<Area>, va: nat)
    requires Spaced(areas) && va % PAGE_SIZE == 0 && Find(areas, va).Some?
    ensures var a := areas[Find(areas, va).value]; Aligned(a) && va + PAGE_SIZE <= a.End()
    ensures va / PAGE_SIZE * PAGE_SIZE == va
  {
    assert Aligned(areas[Find(areas, va).value]);
  }

  lemma CopiedPage(bs: seq<byte>, bs': seq<byte>, page: nat, a: Area, image: int -> byte, va: nat, c: Copy)
    requires |bs'| == |bs| && (page + 1) * PAGE_SIZE <= |bs| && PageBytes(bs, page) == ZeroPage()
    requires a.kind == VmaBinary && va <= c.dst && c.dst + c.size <= va + PAGE_SIZE &&
      c.src - c.dst == a.fileVa - a.memVa
    requires forall x :: va <= x < va + PAGE_SIZE ==> (InFile(a, x) <==> c.dst <= x < c.dst + c.size)
    requires var to := page * PAGE_SIZE + (c.dst - va);
      forall b :: 0 <= b < |bs| ==> bs'[b] == if to <= b < to + c.size then image(c.src + (b - to)) else bs[b]
    ensures PageBytes(bs', page) == Content(a, image, va)
    ensures forall f: nat :: f != page ==> PageBytes(bs', f) == PageBytes(bs, f)
  {
    forall k | 0 <= k < PAGE_SIZE ensures PageBytes(bs', page)[k] == Content(a, image, va)[k] {
      assert PageBytes(bs, page)[k] == 0;
      assert InFile(a, va + k) <==> c.dst <= va + k < c.dst + c.size;
    }
    forall f: nat | f != page ensures PageBytes(bs', f) == PageBytes(bs, f) {
      if (f + 1) * PAGE_SIZE <= |bs| {
        assert forall b :: f * PAGE_SIZE <= b < (f + 1) * PAGE_SIZE ==> bs'[b] == bs[b];
      }
    }
  }

  /** Changing the contents of a page that one region maps changes the view there and nowhere else. */
  lemma FilledView(t: Tree, root: nat, r: Region, page: nat, bs: seq<byte>, bs': seq<byte>)
    requires r in t.Leaves() && r.root == root && t.Leaves()[r].frame == page && SoleMapping(t, r, page)
    requires forall f: nat :: f != page ==> PageBytes(bs', f) == PageBytes(bs, f)
    ensures ViewOf(t, root, bs') ==
      ViewOf(t, root, bs)[r := PageView(t.Leaves()[r].perm, PageBytes(bs', page))]
  {
  }

  lemma SameLeaves(t: Tree, t': Tree, root: nat, bs: seq<byte>)
    requires t'.Leaves() == t.Leaves() && t'.fixed == t.fixed
    ensures ViewOf(t', root, bs) == ViewOf(t, root, bs) && (SmallOnly(t, root) ==> SmallOnly(t', root))
  {
  }

  /** A page that nothing refers to is mapped once. */
  lemma FreshIsSole(t: Tree, t': Tree, r: Region, page: nat, e: Entry)
    requires SmallOnly(t, r.root) && (forall s :: !t.Points(s, page)) && t'.Leaves() == t.Leaves()[r := e]
    ensures SoleMapping(t', r, page)
  {
    forall s | s in t'.Leaves() && s.root == r.root && s != r ensures t'.Leaves()[s].frame != page {
      assert s in t.Leaves() && !t.Points(s, page);
    }
  }

  lemma KeptPage(bs: seq<byte>, bs': seq<byte>, owned: set<Node>, page: nat)
    requires BlocksKept(bs, bs', owned) && Node(page, false) in owned && (page + 1) * PAGE_SIZE <= |bs|
    ensures PageBytes(bs', page) == PageBytes(bs, page) == BlockBytes(bs, Node(page, false))
  {
    assert BlockBytes(bs', Node(page, false)) == BlockBytes(bs, Node(page, false));
  }

  // ---- Coherence ----

  /** What is granted stays coherent as long as every granted address keeps its permissions. */
  lemma StillCoherent(t: Tree, root: nat, areas: seq<Area>, areas': seq<Area>)
    requires forall x: int :: PermAt(areas, x).Some? ==> PermAt(areas', x) == PermAt(areas, x)
    ensures CoherentIn(t, root, areas) ==> CoherentIn(t, root, areas')
  {
    hide PermAt;
  }

  lemma VacantIsUngranted(areas: seq<Area>, start: nat, size: nat, x: int)
    requires Vacant(areas, start, size) && start <= x < start + size
    ensures PermAt(areas, x) == None
  {
  }

  lemma CreateCoherent(t: Tree, root: nat, list: seq<Area>, size: nat, perm: nat)
    requires GoodList(list) && SizeOk(list, size) && perm < PAGE_SIZE
    ensures CoherentIn(t, root, Visible(list)) ==> CoherentIn(t, root, Visible(AfterCreate(list, size, perm)))
  {
    hide GoodList, InsertSucceeds, CreateHides, AfterCreate, CreateVa, Visible, RoundUp, PermAt, Vacant, CoherentIn;
    CreateMeaning(list, size, perm);
    var areas, areas', va := Visible(list), Visible(AfterCreate(list, size, perm)), CreateVa(list, size);
    forall x: int | PermAt(areas, x).Some? ensures PermAt(areas', x) == PermAt(areas, x) {
      if va >= 0 && va <= x < va + RoundUp(size) {
        VacantIsUngranted(areas, va, RoundUp(size), x);
      }
    }
    StillCoherent(t, root, areas, areas');
  }

  lemma NewRangeGranted(list: seq<Area>, size: nat, perm: nat)
    requires GoodList(list) && SizeOk(list, size) && perm < PAGE_SIZE && CreateSucceeds(list, size, perm)
    ensures var va, areas' := CreateVa(list, size), Visible(AfterCreate(list, size, perm));
      && va >= 0 && va % PAGE_SIZE == 0 && va + RoundUp(size) <= USER_TOP
      && (size == 0 || !CreateHides(list, size) ==>
            Granted(areas', va, RoundUp(size), perm))
      && (size > 0 && CreateHides(list, size) ==> PermAt(areas', va) == None && RoundUp(size) > 0)
  {
    hide GoodList, CreateHides, AfterCreate, Visible, Vmem;
    CreateMeaning(list, size, perm);
    RoundUpIsCeiling(size);
  }

  /** Populating an area that no lookup sees leaves a page outside all areas. */
  lemma ExposedPage(view: map<Region, PageView>, t: Tree, root: nat, bs: seq<byte>, areas: seq<Area>, va: nat,
                    size: nat, perm: nat)
    requires va % PAGE_SIZE == 0 && RoundUp(size) > 0 && PermAt(areas, va) == None
    requires ViewOf(t, root, bs) == PopulateView(view, root, va, RoundUp(size) / PAGE_SIZE, perm)
    ensures !CoherentIn(t, root, areas)
  {
    var r := PageRegion(root, va);
    PopulateAt(view, root, va, RoundUp(size) / PAGE_SIZE, perm, r);
    assert r in ViewOf(t, root, bs);
    assert r.index * PAGE_SIZE == va;
  }

  /** Unmapping exactly the range that is taken out keeps tables and areas together, unless a part of the
      area is lost that has a page mapped. */
  lemma CutCoherent(t: Tree, t': Tree, root: nat, areas: seq<Area>, spare: bool, i: nat, from: nat, to: nat,
                    areas': seq<Area>)
    requires i < |areas| && AreasAfterCut(areas, spare, i, from, to, areas') && SmallOnly(t, root)
    requires LeavesWithout(t, t', root, from, to)
    ensures CoherentIn(t, root, areas) ==>
      (CoherentIn(t', root, areas') <==>
         !(TailLost(areas, spare, i, from, to) && MappedIn(t, root, Max(from, to), areas[i].End())))
  {
    var lost := TailLost(areas, spare, i, from, to) && MappedIn(t, root, Max(from, to), areas[i].End());
    if CoherentIn(t, root, areas) && lost {
      var r :| r in t.Leaves() && r.root == root && Max(from, to) <= r.index * PAGE_SIZE < areas[i].End();
      assert r in t'.Leaves() && PermAt(areas', r.index * PAGE_SIZE) == None;
    }
  }

  lemma InsertKeepsCoherent(t: Tree, root: nat, list: seq<Area>, a: Area)
    requires GoodList(list) && Aligned(a) && Backed(a)
    ensures CoherentIn(t, root, Visible(list)) ==> CoherentIn(t, root, Visible(AfterInsert(list, a)))
  {
    hide Aligned, Backed, Visible, AfterInsert, Fits, Spaced, PermAt, CoherentIn;
    InsertionMeaning(list, a);
    var areas, areas' := Visible(list), Visible(AfterInsert(list, a));
    FitsIffApart(areas, a.va, a.End());
    forall x: int | PermAt(areas, x).Some? ensures PermAt(areas', x) == PermAt(areas, x) {
      if HasSpareIn(list) && Fits(areas, a.va, a.End()) && a.Covers(x) {
        VacantIsUngranted(areas, a.va, a.len, x);
      }
    }
    StillCoherent(t, root, areas, areas');
  }

  /** The lengths that a cut computes modulo 2^64 are the true ones. */
  lemma CutSizes(va: nat, len: nat, from: nat, to: nat)
    requires va + len <= USER_TOP && va <= from <= va + len && va <= to <= va + len && (from == va ==> from <= to)
    ensures var size := Wrap(to - from);
      && (from == va ==> (size == len <==> to == va + len) && Wrap(len - size) == va + len - to)
      && (to == va + len ==> Wrap(len - size) == from - va)
      && Wrap(len - size - (va + len - to)) == from - va
  {
    if from > to {
      assert Wrap(to - from) == to - from + WORD_LIMIT;
      assert len - (to - from + WORD_LIMIT) - (va + len - to) == from - va - WORD_LIMIT;
    }
  }

  lemma LookupBelowTop(areas: seq<Area>, va: nat, i: nat)
    requires Spaced(areas) && Find(areas, va) == Some(i)
    ensures va < areas[i].End() <= USER_TOP
  {
    assert Aligned(areas[i]);
  }

  lemma EndsWhereExpected(from: nat, to: nat)
    requires from < WORD_LIMIT && to < WORD_LIMIT
    ensures Wrap(from + Wrap(to - from)) == to
  {
  }
}

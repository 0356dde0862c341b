/** The kernel's own address space: its root table in boot memory and the static mappings made at start-up. */
module KernelMap {
  import opened FreeList
  import opened Bits
  import opened Paging
  import opened Frames
  import opened Tree
  import opened PageTables
  import EnvTable
  import VmaList

  const PDPT_SPAN: nat := 0x80_0000_0000
  const USER_PAGES: nat := 0x8000_0000_0000 - PDPT_SPAN
  const USER_ENVS: nat := USER_PAGES - PDPT_SPAN
  const USER_VMAS: nat := USER_ENVS - PDPT_SPAN
  const KSTACK_TOP: nat := 0xFFFF_FF80_0000_0000 - PDPT_SPAN
  const KSTACK_SIZE: nat := 8 * PAGE_SIZE
  const KSTACK_GAP: nat := 8 * PAGE_SIZE
  const STACK_BOTTOM: nat := KSTACK_TOP - KSTACK_SIZE
  const GAP_BOTTOM: nat := STACK_BOTTOM - KSTACK_GAP

  /** A range of virtual addresses, the physical range it is mapped to, and permissions. */
  datatype Mapping = Mapping(va: nat, size: nat, pa: nat, perm: nat) {
    predicate Ok() {
      && va % PAGE_SIZE == 0 && size % PAGE_SIZE == 0 && pa % PAGE_SIZE == 0
      && va + size < WORD_LIMIT && pa + size <= FRAME_LIMIT * PAGE_SIZE && IsPerm(perm)
    }
  }

  ghost predicate AllOk(maps: seq<Mapping>) {
    forall i :: 0 <= i < |maps| ==> maps[i].Ok()
  }

  // ---- One mapping after the other ----

  ghost function TablesForAll(root: nat, maps: seq<Mapping>): set<Region> {
    if maps == [] then {}
    else
      var last := maps[|maps| - 1];
      TablesForAll(root, maps[..|maps| - 1]) + TablesFor(root, last.va, last.size / PAGE_SIZE)
  }

  /** The flat view after all mappings: where ranges overlap, the later one counts. */
  ghost function LinearMapAll(leaves: map<Region, Entry>, root: nat, maps: seq<Mapping>): map<Region, Entry> {
    if maps == [] then leaves
    else
      var last := maps[|maps| - 1];
      LinearMap(LinearMapAll(leaves, root, maps[..|maps| - 1]), root, last.va, last.pa / PAGE_SIZE, last.perm,
                last.size / PAGE_SIZE)
  }

  lemma Prefixes(leaves: map<Region, Entry>, root: nat, maps: seq<Mapping>, i: nat)
    requires i < |maps|
    ensures var m := maps[i];
      && TablesForAll(root, maps[..i + 1]) == TablesForAll(root, maps[..i]) + TablesFor(root, m.va, m.size / PAGE_SIZE)
      && LinearMapAll(leaves, root, maps[..i + 1]) ==
           LinearMap(LinearMapAll(leaves, root, maps[..i]), root, m.va, m.pa / PAGE_SIZE, m.perm, m.size / PAGE_SIZE)
  {
    assert maps[..i + 1][..i] == maps[..i];
  }

  lemma {:induction false} PrefixTables(root: nat, maps: seq<Mapping>, i: nat)
    requires i <= |maps|
    ensures TablesForAll(root, maps[..i]) <= TablesForAll(root, maps)
    decreases |maps| - i
  {
    if i == |maps| {
      assert maps[..i] == maps;
    } else {
      PrefixTables(root, maps, i + 1);
      Prefixes(map[], root, maps, i);
    }
  }

  /** Makes a list of static mappings; false when a table could not be allocated, where the original follows a
      null pointer. */
  method MapAll(pt: PageTables, root: nat, maps: seq<Mapping>) returns (ok: bool)
    requires pt.Valid() && pt.stale == {} && Region(root, 4, 0) in pt.tree.tables && StaticOnly(pt.tree, root)
    requires AllOk(maps)
    modifies pt`tree, pt.pm`pageFreeList, pt.pm`free, pt.pm`owned, pt.pm.pages, pt.pm.words, pt.pm.bytes
    ensures pt.Valid() && Region(root, 4, 0) in pt.tree.tables
    ensures if ok then Built(old(pt.Snap()), pt.Snap(), TablesForAll(root, maps))
      else Short(old(pt.Snap()), TablesForAll(root, maps))
    ensures ok ==> StaticOnly(pt.tree, root) && pt.tree.Leaves() == LinearMapAll(old(pt.tree).Leaves(), root, maps)
  {
    hide Partition, Listed, Owns, Counted, AllEncodable, InMemory, Tree.Unaliased, Tree.Held, Weight, RefsKept,
         Built, Short, TablesFor, LinearMap, StaticAt, StaticOnly, TablesForAll, LinearMapAll, Mapping.Ok;
    NoMappings(pt.Snap(), root, maps);
    var i := 0;
    while i < |maps|
      invariant 0 <= i <= |maps| && pt.Valid() && Region(root, 4, 0) in pt.tree.tables && StaticOnly(pt.tree, root)
      invariant Built(old(pt.Snap()), pt.Snap(), TablesForAll(root, maps[..i]))
      invariant pt.tree.Leaves() == LinearMapAll(old(pt.tree).Leaves(), root, maps[..i])
    {
      var m := maps[i];
      MappingBounds(m);
      ghost var v, needed := pt.Snap(), TablesFor(root, m.va, m.size / PAGE_SIZE);
      forall j | 0 <= j < m.size / PAGE_SIZE ensures StaticAt(pt.tree, root, VpnPlus(m.va, j)) {
        StaticEverywhere(pt.tree, root, VpnPlus(m.va, j));
      }
      Prefixes(old(pt.tree).Leaves(), root, maps, i);
      PrefixTables(root, maps, i + 1);
      ok := pt.BootMapRegion(root, m.va, m.size, m.pa, m.perm);
      if !ok {
        ShortLater(old(pt.Snap()), v, TablesForAll(root, maps[..i]), needed, TablesForAll(root, maps));
        return;
      }
      BuiltTransitive(old(pt.Snap()), v, pt.Snap(), TablesForAll(root, maps[..i]), needed);
      i := i + 1;
    }
    assert maps[..i] == maps;
    return true;
  }

  lemma MappingBounds(m: Mapping)
    requires m.Ok()
    ensures m.va % PAGE_SIZE == 0 && m.size % PAGE_SIZE == 0 && m.pa % PAGE_SIZE == 0 && m.va + m.size < WORD_LIMIT
    ensures m.pa + m.size <= FRAME_LIMIT * PAGE_SIZE && IsPerm(m.perm)
  {
  }

  lemma NoMappings(v: Snapshot, root: nat, maps: seq<Mapping>)
    ensures Built(v, v, TablesForAll(root, maps[..0]))
    ensures LinearMapAll(v.tree.Leaves(), root, maps[..0]) == v.tree.Leaves()
  {
    assert v.tree.tables.Keys + {} == v.tree.tables.Keys;
  }

  /** The n pages from `va` on have a table. */
  ghost predicate HasTables(t: Tree, root: nat, va: nat, n: nat) {
    forall j :: 0 <= j < n ==> RegionAt(root, VpnPlus(va, j), 1) in t.tables
  }

  /** Makes sure that the pages of a range have a table, ignoring failure. */
  method ReservePages(pt: PageTables, root: nat, va: nat, size: nat)
    requires pt.Valid() && pt.stale == {} && Region(root, 4, 0) in pt.tree.tables && StaticOnly(pt.tree, root)
    requires va % PAGE_SIZE == 0 && size % PAGE_SIZE == 0
    requires HasTables(pt.tree, root, va, size / PAGE_SIZE)
    modifies pt`tree, pt.pm`pageFreeList, pt.pm`free, pt.pm`owned, pt.pm.pages, pt.pm.words, pt.pm.bytes
    ensures pt.Valid() && pt.Snap() == old(pt.Snap())
  {
    hide Partition, Listed, Owns, Counted, AllEncodable, InMemory, Tree.Unaliased, Tree.Held, Weight, StaticOnly,
         Vpn, VpnPlus;
    var vi := va;
    ghost var n := 0;
    while vi < va + size
      invariant n <= size / PAGE_SIZE && vi == va + n * PAGE_SIZE
      invariant pt.Valid() && pt.Snap() == old(pt.Snap())
    {
      PageAhead(va, 0, n);
      StaticEverywhere(pt.tree, root, Vpn(vi));
      var cell := pt.PageWalk(root, vi, CreateNormal);
      vi := vi + PAGE_SIZE;
      n := n + 1;
    }
  }

  // ---- What the kernel maps ----

  /** A program header of the kernel image. */
  datatype Segment = Segment(load: bool, flags: nat, va: nat, pa: nat, memSize: nat)

  /** Where the boot allocator has put the kernel's tables, and how large their elements are. */
  datatype KernelLayout = KernelLayout(
    root: nat, kernelVma: nat, pagesPa: nat, pageInfoSize: nat, envsPa: nat, envSize: nat,
    vmasPa: seq<nat>, vmaSize: nat, stackPa: nat, segments: seq<Segment>)
  {
    /** Everything is page-aligned and within physical and virtual memory. */
    ghost predicate Ok(npages: nat) {
      && root < npages && |vmasPa| == EnvTable.NENV
      && pagesPa % PAGE_SIZE == 0 && envsPa % PAGE_SIZE == 0 && stackPa % PAGE_SIZE == 0 && kernelVma % PAGE_SIZE == 0
      && npages * pageInfoSize + PAGE_SIZE <= PDPT_SPAN && EnvTable.NENV * envSize + PAGE_SIZE <= PDPT_SPAN
      && EnvTable.NENV * (VmaList.POOL_SIZE * vmaSize + PAGE_SIZE) <= PDPT_SPAN
      && pagesPa < MAX_PA && envsPa < MAX_PA && stackPa < MAX_PA
      && (forall i :: 0 <= i < EnvTable.NENV ==> vmasPa[i] % PAGE_SIZE == 0 && vmasPa[i] < MAX_PA)
      && kernelVma + 0x1_0000_0000 < WORD_LIMIT
      && (forall i :: 0 <= i < |segments| ==> SegmentOk(segments[i]))
    }
  }

  const MAX_PA: nat := 0x8000_0000

  ghost predicate SegmentOk(s: Segment) {
    && s.va % PAGE_SIZE == 0 && s.pa % PAGE_SIZE == 0 && IsPerm(s.flags)
    && s.va + s.memSize + PAGE_SIZE < WORD_LIMIT && s.pa + s.memSize + PAGE_SIZE <= FRAME_LIMIT * PAGE_SIZE
  }

  /** The area lists of the first i environments. */
  function VmaMappings(k: KernelLayout, i: nat): seq<Mapping>
    requires i <= |k.vmasPa|
  {
    if i == 0 then []
    else
      var size := RoundUp(VmaList.POOL_SIZE * k.vmaSize);
      VmaMappings(k, i - 1) +
      [Mapping(USER_VMAS + (i - 1) * size, size, k.vmasPa[i - 1], Or(PAGE_WRITE, PAGE_NO_EXEC))]
  }

  /** The loadable segments of the kernel image above its base; writable ones are not executable. */
  function SegmentMappings(segments: seq<Segment>, kernelVma: nat): seq<Mapping> {
    if segments == [] then []
    else
      var s := segments[0];
      (if s.load && s.va > kernelVma then
         [Mapping(s.va, RoundUp(s.memSize), s.pa,
                  if And(s.flags, PAGE_WRITE) != 0 then Or(s.flags, PAGE_NO_EXEC) else s.flags)]
       else []) +
      SegmentMappings(segments[1..], kernelVma)
  }

  /** The mappings of mem_init up to the kernel stack, and those behind it. */
  function TableMappings(k: KernelLayout, npages: nat): seq<Mapping>
    requires |k.vmasPa| == EnvTable.NENV
  {
    [Mapping(USER_PAGES, RoundUp(npages * k.pageInfoSize), k.pagesPa, Or(PAGE_WRITE, PAGE_NO_EXEC)),
     Mapping(USER_ENVS, RoundUp(EnvTable.NENV * k.envSize), k.envsPa, Or(Or(PAGE_WRITE, PAGE_NO_EXEC), PAGE_USER))] +
    VmaMappings(k, EnvTable.NENV) +
    [Mapping(STACK_BOTTOM, KSTACK_SIZE, k.stackPa, Or(PAGE_WRITE, PAGE_NO_EXEC))]
  }

  function ImageMappings(k: KernelLayout, npages: nat): seq<Mapping> {
    [Mapping(k.kernelVma, npages * PAGE_SIZE, 0, Or(PAGE_WRITE, PAGE_NO_EXEC))] +
    SegmentMappings(k.segments, k.kernelVma) +
    [Mapping(k.kernelVma, 0x1_0000_0000, 0, PAGE_WRITE)]
  }

  /** All page tables the kernel's address space needs below its root. */
  ghost function KernelTables(k: KernelLayout, npages: nat): set<Region>
    requires |k.vmasPa| == EnvTable.NENV
  {
    TablesForAll(k.root, TableMappings(k, npages)) + TablesForAll(k.root, ImageMappings(k, npages))
  }

  // ---- The mappings are well formed ----

  lemma PermOr(a: nat, b: nat)
    requires IsPerm(a) && IsPerm(b)
    ensures IsPerm(Or(a, b))
  {
    Pow2Values();
    AndOverOr(a, b, ADDRESS_MASK);
    Pow2Add(64, 0);
    hide And, Pow2, Shl;
    OrSplit(0, 0, a, b, 64);
  }

  lemma StaticPerms()
    ensures IsPerm(PAGE_WRITE) && IsPerm(PAGE_NO_EXEC) && IsPerm(Or(PAGE_WRITE, PAGE_NO_EXEC))
    ensures IsPerm(Or(Or(PAGE_WRITE, PAGE_NO_EXEC), PAGE_USER))
  {
    hide IsPerm;
    LowBitsArePerm(PAGE_WRITE);
    LowBitsArePerm(PAGE_USER);
    NoExecIsPerm();
    PermOr(PAGE_WRITE, PAGE_NO_EXEC);
    PermOr(Or(PAGE_WRITE, PAGE_NO_EXEC), PAGE_USER);
  }

  lemma AllOkConcat(a: seq<Mapping>, b: seq<Mapping>)
    requires AllOk(a) && AllOk(b)
    ensures AllOk(a + b)
  {
    hide Mapping.Ok;
  }

  lemma {:induction false} VmaMappingsOk(k: KernelLayout, npages: nat, i: nat)
    requires k.Ok(npages) && i <= EnvTable.NENV
    ensures AllOk(VmaMappings(k, i))
    decreases i
  {
    if i > 0 {
      VmaMappingsOk(k, npages, i - 1);
      VmaMappingOk(k, npages, i - 1);
      AllOkConcat(VmaMappings(k, i - 1), [VmaMappings(k, i)[|VmaMappings(k, i)| - 1]]);
    }
  }

  lemma VmaMappingOk(k: KernelLayout, npages: nat, i: nat)
    requires k.Ok(npages) && i < EnvTable.NENV
    ensures var size := RoundUp(VmaList.POOL_SIZE * k.vmaSize);
      Mapping(USER_VMAS + i * size, size, k.vmasPa[i], Or(PAGE_WRITE, PAGE_NO_EXEC)).Ok()
  {
    hide IsPerm;
    var size := RoundUp(VmaList.POOL_SIZE * k.vmaSize);
    RoundUpIsCeiling(VmaList.POOL_SIZE * k.vmaSize);
    StaticPerms();
    PageMultiple(i, size);
    ListFits(i, size, VmaList.POOL_SIZE * k.vmaSize + PAGE_SIZE);
  }

  lemma ListFits(i: nat, size: nat, bound: nat)
    requires i < EnvTable.NENV && size <= bound && EnvTable.NENV * bound <= PDPT_SPAN
    ensures i * size + size <= PDPT_SPAN
  {
    var last := EnvTable.NENV - 1 - i;
    assert i * size + last * size == (EnvTable.NENV - 1) * size;
    assert last * size >= 0;
  }

  lemma PageMultiple(i: nat, size: nat)
    requires size % PAGE_SIZE == 0
    ensures (USER_VMAS + i * size) % PAGE_SIZE == 0
  {
    var q := size / PAGE_SIZE;
    TimesSwapped(i, PAGE_SIZE, q);
    AlignedOffset(i * q);
  }

  lemma TimesSwapped(i: nat, p: nat, q: nat)
    ensures i * (p * q) == p * (i * q)
  {
  }

  lemma AlignedOffset(k: nat)
    ensures (USER_VMAS + PAGE_SIZE * k) % PAGE_SIZE == 0
  {
  }

  lemma {:induction false} SegmentMappingsOk(segments: seq<Segment>, kernelVma: nat)
    requires forall i :: 0 <= i < |segments| ==> SegmentOk(segments[i])
    ensures AllOk(SegmentMappings(segments, kernelVma))
  {
    if segments != [] {
      SegmentMappingsOk(segments[1..], kernelVma);
      var s := segments[0];
      RoundUpIsCeiling(s.memSize);
      NoExecIsPerm();
      PermOr(s.flags, PAGE_NO_EXEC);
      hide IsPerm;
      assert SegmentOk(s);
    }
  }

  lemma TableMappingsOk(k: KernelLayout, npages: nat)
    requires k.Ok(npages)
    ensures AllOk(TableMappings(k, npages))
  {
    hide IsPerm, VmaMappings;
    StaticPerms();
    RoundUpIsCeiling(npages * k.pageInfoSize);
    RoundUpIsCeiling(EnvTable.NENV * k.envSize);
    VmaMappingsOk(k, npages, EnvTable.NENV);
    var maps := TableMappings(k, npages);
    AllOkConcat(maps[..2], VmaMappings(k, EnvTable.NENV));
    AllOkConcat(maps[..2] + VmaMappings(k, EnvTable.NENV), [maps[|maps| - 1]]);
    assert maps == maps[..2] + VmaMappings(k, EnvTable.NENV) + [maps[|maps| - 1]];
  }

  lemma ImageMappingsOk(k: KernelLayout, npages: nat)
    requires k.Ok(npages) && npages <= MAX_FRAMES
    ensures AllOk(ImageMappings(k, npages))
  {
    hide IsPerm, SegmentMappings;
    StaticPerms();
    SegmentMappingsOk(k.segments, k.kernelVma);
    var maps, segs := ImageMappings(k, npages), SegmentMappings(k.segments, k.kernelVma);
    AllOkConcat(maps[..1], segs);
    AllOkConcat(maps[..1] + segs, [maps[|maps| - 1]]);
    assert maps == maps[..1] + segs + [maps[|maps| - 1]];
  }

  // ---- Regions involved ----

  lemma {:induction false} TablesForLevels(root: nat, va: nat, n: nat)
    ensures forall r :: r in TablesFor(root, va, n) ==> r.level <= 3
    decreases n
  {
    if n > 0 {
      TablesForLevels(root, va, n - 1);
    }
  }

  lemma {:induction false} TablesForAllLevels(root: nat, maps: seq<Mapping>)
    ensures forall r :: r in TablesForAll(root, maps) ==> r.level <= 3
  {
    if maps != [] {
      var last := maps[|maps| - 1];
      TablesForAllLevels(root, maps[..|maps| - 1]);
      TablesForLevels(root, last.va, last.size / PAGE_SIZE);
    }
  }

  lemma {:induction false} LinearMapRoots(leaves: map<Region, Entry>, root: nat, va: nat, frame: nat, perm: nat, n: nat)
    requires forall r :: r in leaves ==> r.root == root
    ensures forall r :: r in LinearMap(leaves, root, va, frame, perm, n) ==> r.root == root
    decreases n
  {
    if n > 0 {
      LinearMapRoots(leaves, root, va, frame, perm, n - 1);
    }
  }

  lemma {:induction false} LinearMapAllRoots(leaves: map<Region, Entry>, root: nat, maps: seq<Mapping>)
    requires forall r :: r in leaves ==> r.root == root
    ensures forall r :: r in LinearMapAll(leaves, root, maps) ==> r.root == root
  {
    if maps != [] {
      var last := maps[|maps| - 1];
      LinearMapAllRoots(leaves, root, maps[..|maps| - 1]);
      LinearMapRoots(LinearMapAll(leaves, root, maps[..|maps| - 1]), root, last.va, last.pa / PAGE_SIZE, last.perm,
                     last.size / PAGE_SIZE);
    }
  }

  /** The pages of the gap below the kernel stack share their table with the stack. */
  lemma GapHasTable(root: nat, j: nat)
    requires j < KSTACK_GAP / PAGE_SIZE
    ensures RegionAt(root, VpnPlus(GAP_BOTTOM, j), 1) in TablesFor(root, STACK_BOTTOM, KSTACK_SIZE / PAGE_SIZE)
  {
    TablesGrow(root, STACK_BOTTOM, 1, KSTACK_SIZE / PAGE_SIZE);
    assert TablesFor(root, STACK_BOTTOM, 1) ==
      TablesFor(root, STACK_BOTTOM, 0) + PathOf(root, VpnPlus(STACK_BOTTOM, 0), false);
    GapPage(j);
  }

  lemma GapPage(j: nat)
    requires j < KSTACK_GAP / PAGE_SIZE
    ensures VpnPlus(GAP_BOTTOM, j) / 512 == VpnPlus(STACK_BOTTOM, 0) / 512
  {
    assert (GAP_BOTTOM + j * PAGE_SIZE) / PAGE_SIZE == 0xF_FFFF_EFFF_FFF0 + j;
    assert VpnPlus(GAP_BOTTOM, j) == 0xF_EFFF_FFF0 + j;
  }

  lemma GapHasTables(k: KernelLayout, npages: nat, t: Tree)
    requires |k.vmasPa| == EnvTable.NENV && TablesForAll(k.root, TableMappings(k, npages)) <= t.tables.Keys
    ensures HasTables(t, k.root, GAP_BOTTOM, KSTACK_GAP / PAGE_SIZE)
  {
    var maps := TableMappings(k, npages);
    var last := maps[|maps| - 1];
    assert last.va == STACK_BOTTOM && last.size == KSTACK_SIZE;
    forall j | 0 <= j < KSTACK_GAP / PAGE_SIZE
      ensures RegionAt(k.root, VpnPlus(GAP_BOTTOM, j), 1) in t.tables
    {
      hide VpnPlus, TablesFor, TableMappings, RegionAt;
      GapHasTable(k.root, j);
      assert RegionAt(k.root, VpnPlus(GAP_BOTTOM, j), 1) in TablesForAll(k.root, maps);
    }
  }

  /** The last mapping decides: page p above the base of the kernel is physical frame p, for the first 4 GiB. */
  lemma KernelSeesMemory(leaves: map<Region, Entry>, k: KernelLayout, npages: nat, p: nat)
    requires p < 0x10_0000 && k.kernelVma % PAGE_SIZE == 0
    ensures var m := LinearMapAll(leaves, k.root, ImageMappings(k, npages));
      var r := RegionAt(k.root, VpnPlus(k.kernelVma, p), 0);
      r in m && m[r] == Entry(p, PAGE_WRITE, Huge(PAGE_WRITE))
  {
    var maps := ImageMappings(k, npages);
    var last := maps[|maps| - 1];
    assert last == Mapping(k.kernelVma, 0x1_0000_0000, 0, PAGE_WRITE);
    hide LinearMap, VpnPlus, ImageMappings;
    LinearMapAt(LinearMapAll(leaves, k.root, maps[..|maps| - 1]), k.root, k.kernelVma, 0, PAGE_WRITE, 0x10_0000,
                RegionAt(k.root, VpnPlus(k.kernelVma, p), 0));
  }

  // ---- How many tables there are ----

  /** One table of each level for what its span divides into, and two more of each level for the ends. */
  function TableBound(n: nat): nat {
    n / 512 + n / 0x4_0000 + n / 0x800_0000 + 6
  }

  /** The tables of one level for n pages from page number `first` on: one for each span of 512, 512^2 or 512^3 pages
      that the range meets. */
  function Spans(first: nat, n: nat, span: nat): nat
    requires span > 0
  {
    if n == 0 then 0 else (first + n - 1) / span - first / span + 1
  }

  lemma SpanBound(first: nat, n: nat, span: nat)
    requires span == 512 || span == 0x4_0000 || span == 0x800_0000
    ensures Spans(first, n, span) <= n / span + 2
  {
  }

  /** From one page to the next the table of a level changes only where a new span begins. */
  lemma SpanStep(m: nat, span: nat)
    requires span == 512 || span == 0x4_0000 || span == 0x800_0000
    ensures m / span <= (m + 1) / span <= m / span + 1
    ensures (m + 1) / span == m / span ==> (m + 1) % FRAME_LIMIT / span == m % FRAME_LIMIT / span
  {
    var k := m / span * span;
    assert k <= m < k + span;
    if (m + 1) / span == m / span {
      SpanOfRest(m, span);
      SpanOfRest(m + 1, span);
    }
  }

  lemma SpanOfRest(m: nat, span: nat)
    requires span == 512 || span == 0x4_0000 || span == 0x800_0000
    ensures m % FRAME_LIMIT / span == m / span % (FRAME_LIMIT / span)
  {
    var q, r := m / FRAME_LIMIT, m % FRAME_LIMIT;
    assert m == FRAME_LIMIT * q + r;
    if span == 512 {
      SpanOfRest1(q, r);
    } else if span == 0x4_0000 {
      SpanOfRest2(q, r);
    } else {
      SpanOfRest3(q, r);
    }
  }

  lemma SpanOfRest1(q: nat, r: nat)
    requires r < FRAME_LIMIT
    ensures (FRAME_LIMIT * q + r) / 512 % 0x800_0000 == r / 512
  {
    assert (FRAME_LIMIT * q + r) / 512 == 0x800_0000 * q + r / 512;
  }

  lemma SpanOfRest2(q: nat, r: nat)
    requires r < FRAME_LIMIT
    ensures (FRAME_LIMIT * q + r) / 0x4_0000 % 0x4_0000 == r / 0x4_0000
  {
    assert (FRAME_LIMIT * q + r) / 0x4_0000 == 0x4_0000 * q + r / 0x4_0000;
  }

  lemma SpanOfRest3(q: nat, r: nat)
    requires r < FRAME_LIMIT
    ensures (FRAME_LIMIT * q + r) / 0x800_0000 % 512 == r / 0x800_0000
  {
    assert (FRAME_LIMIT * q + r) / 0x800_0000 == 512 * q + r / 0x800_0000;
  }

  lemma LevelSpans(p: nat)
    ensures p / 512 / 512 == p / 0x4_0000 && p / 512 / 512 / 512 == p / 0x800_0000
  {
  }

  /** 1 where page n of a range begins a new span, and 0 elsewhere. */
  function NewSpans(first: nat, n: nat, span: nat): nat
    requires span > 0
  {
    if n > 0 && (first + n) / span == (first + n - 1) / span then 0 else 1
  }

  /** The tables of pages j - 1 and j at one level differ only where a new span begins. */
  lemma SameTable(root: nat, va: nat, j: nat, level: nat)
    requires 1 <= level <= 3 && j > 0
    ensures
      var span := if level == 1 then 512 else if level == 2 then 0x4_0000 else 0x800_0000;
      NewSpans(va / PAGE_SIZE, j, span) == 0 ==>
      RegionAt(root, VpnPlus(va, j), level) == RegionAt(root, VpnPlus(va, j - 1), level)
  {
    var m := va / PAGE_SIZE + j;
    assert (va + j * PAGE_SIZE) / PAGE_SIZE == m && (va + (j - 1) * PAGE_SIZE) / PAGE_SIZE == m - 1;
    LevelSpans(m % FRAME_LIMIT);
    LevelSpans((m - 1) % FRAME_LIMIT);
    SpanStep(m - 1, if level == 1 then 512 else if level == 2 then 0x4_0000 else 0x800_0000);
  }

  lemma NextSpan(first: nat, n: nat, span: nat)
    requires span == 512 || span == 0x4_0000 || span == 0x800_0000
    ensures Spans(first, n + 1, span) == Spans(first, n, span) + NewSpans(first, n, span)
    ensures n == 0 ==> NewSpans(first, n, span) == 1
    ensures NewSpans(first, n, span) <= 1
  {
    if n > 0 {
      SpanStep(first + n - 1, span);
    }
  }

  function Missing(s: set<Region>, r: Region): nat {
    if r in s then 0 else 1
  }

  lemma OneMoreRegion(s: set<Region>, r: Region)
    ensures |s + {r}| == |s| + Missing(s, r)
  {
    if r in s {
      assert s + {r} == s;
    }
  }

  lemma PathMore(s: set<Region>, root: nat, vpn: nat)
    ensures |s + PathOf(root, vpn, false)| <= |s| + Missing(s, RegionAt(root, vpn, 1)) +
      Missing(s, RegionAt(root, vpn, 2)) + Missing(s, RegionAt(root, vpn, 3))
  {
    hide RegionAt;
    var r1, r2, r3 := RegionAt(root, vpn, 1), RegionAt(root, vpn, 2), RegionAt(root, vpn, 3);
    OneMoreRegion(s, r1);
    OneMoreRegion(s + {r1}, r2);
    OneMoreRegion(s + {r1} + {r2}, r3);
    assert s + PathOf(root, vpn, false) == s + {r1} + {r2} + {r3};
  }

  /** A table on the path to page j is missing among those for the pages before only where a new span begins. */
  lemma MissingTables(root: nat, va: nat, j: nat)
    ensures var first, s, vpn := va / PAGE_SIZE, TablesFor(root, va, j), VpnPlus(va, j);
      && Missing(s, RegionAt(root, vpn, 1)) <= NewSpans(first, j, 512)
      && Missing(s, RegionAt(root, vpn, 2)) <= NewSpans(first, j, 0x4_0000)
      && Missing(s, RegionAt(root, vpn, 3)) <= NewSpans(first, j, 0x800_0000)
  {
    NextSpan(va / PAGE_SIZE, j, 512);
    NextSpan(va / PAGE_SIZE, j, 0x4_0000);
    NextSpan(va / PAGE_SIZE, j, 0x800_0000);
    if j > 0 {
      LastPath(root, va, j);
      hide TablesFor, RegionAt, VpnPlus, NewSpans;
      SameTable(root, va, j, 1);
      SameTable(root, va, j, 2);
      SameTable(root, va, j, 3);
    }
  }

  lemma {:induction false} TablesForSpans(root: nat, va: nat, n: nat)
    ensures var first := va / PAGE_SIZE;
      |TablesFor(root, va, n)| <= Spans(first, n, 512) + Spans(first, n, 0x4_0000) + Spans(first, n, 0x800_0000)
    decreases n
  {
    hide Spans, NewSpans, RegionAt, VpnPlus, PathOf, Missing;
    if n > 0 {
      var first, s := va / PAGE_SIZE, TablesFor(root, va, n - 1);
      TablesForSpans(root, va, n - 1);
      NextSpan(first, n - 1, 512);
      NextSpan(first, n - 1, 0x4_0000);
      NextSpan(first, n - 1, 0x800_0000);
      MissingTables(root, va, n - 1);
      PathMore(s, root, VpnPlus(va, n - 1));
    }
  }

  lemma LastPath(root: nat, va: nat, n: nat)
    requires n > 0
    ensures PathOf(root, VpnPlus(va, n - 1), false) <= TablesFor(root, va, n)
  {
  }

  /** The tables for a range of n pages are few: the 4 GiB behind the kernel's base need no more than 2058. */
  lemma TablesForBound(root: nat, va: nat, n: nat)
    ensures |TablesFor(root, va, n)| <= TableBound(n)
  {
    hide Spans, TablesFor;
    var first := va / PAGE_SIZE;
    TablesForSpans(root, va, n);
    SpanBound(first, n, 512);
    SpanBound(first, n, 0x4_0000);
    SpanBound(first, n, 0x800_0000);
  }

  function TableBoundAll(maps: seq<Mapping>): nat {
    if maps == [] then 0 else TableBoundAll(maps[..|maps| - 1]) + TableBound(maps[|maps| - 1].size / PAGE_SIZE)
  }

  lemma {:induction false} TablesForAllBound(root: nat, maps: seq<Mapping>)
    ensures |TablesForAll(root, maps)| <= TableBoundAll(maps)
  {
    if maps != [] {
      hide TablesFor, TableBound;
      var last, front := maps[|maps| - 1], maps[..|maps| - 1];
      TablesForAllBound(root, front);
      TablesForBound(root, last.va, last.size / PAGE_SIZE);
      UnionSize(TablesForAll(root, front), TablesFor(root, last.va, last.size / PAGE_SIZE));
    }
  }

  lemma UnionSize(a: set<Region>, b: set<Region>)
    ensures |a + b| <= |a| + |b|
  {
    assert |a + b| + |a * b| == |a| + |b|;
  }

  /** How many frames are enough for the kernel's page tables: about one for every 512 pages it maps. */
  lemma KernelTablesBound(k: KernelLayout, npages: nat)
    requires |k.vmasPa| == EnvTable.NENV
    ensures |KernelTables(k, npages)| <=
      TableBoundAll(TableMappings(k, npages)) + TableBoundAll(ImageMappings(k, npages))
  {
    hide TablesForAll, TableBoundAll, TableMappings, ImageMappings;
    TablesForAllBound(k.root, TableMappings(k, npages));
    TablesForAllBound(k.root, ImageMappings(k, npages));
    UnionSize(TablesForAll(k.root, TableMappings(k, npages)), TablesForAll(k.root, ImageMappings(k, npages)));
  }

  lemma {:induction false} TablesForRoots(root: nat, va: nat, n: nat)
    ensures forall r :: r in TablesFor(root, va, n) ==> r.root == root
    decreases n
  {
    if n > 0 {
      TablesForRoots(root, va, n - 1);
    }
  }

  lemma {:induction false} TablesForAllRoots(root: nat, maps: seq<Mapping>)
    ensures forall r :: r in TablesForAll(root, maps) ==> r.root == root
  {
    if maps != [] {
      var last := maps[|maps| - 1];
      TablesForAllRoots(root, maps[..|maps| - 1]);
      TablesForRoots(root, last.va, last.size / PAGE_SIZE);
    }
  }

  /** They belong to the kernel's address space and lie below its root. */
  lemma KernelTablesAre(k: KernelLayout, npages: nat)
    requires |k.vmasPa| == EnvTable.NENV
    ensures forall r :: r in KernelTables(k, npages) ==> r.root == k.root && r.level <= 3
  {
    TablesForAllRoots(k.root, TableMappings(k, npages));
    TablesForAllRoots(k.root, ImageMappings(k, npages));
    TablesForAllLevels(k.root, TableMappings(k, npages));
    TablesForAllLevels(k.root, ImageMappings(k, npages));
  }
}

/** What the kernel's address space shows once it is built, address by address, and building it. */
module KernelSpace {
  import opened FreeList
  import opened Bits
  import opened Paging
  import opened Frames
  import opened Tree
  import opened PageTables
  import EnvTable
  import VmaList
  import opened KernelMap

  /** The start of the upper half of the canonical addresses. */
  const UPPER_HALF: nat := 0xFFFF_8000_0000_0000

  // ---- What a list of mappings shows at a page ----

  ghost predicate CoversPage(m: Mapping, vpn: nat) {
    exists j: nat :: j < m.size / PAGE_SIZE && VpnPlus(m.va, j) == vpn
  }

  lemma PagesFit(m: Mapping)
    requires m.Ok()
    ensures m.size / PAGE_SIZE <= FRAME_LIMIT && m.va % PAGE_SIZE == 0
  {
  }

  /** The last mapping that covers a page decides what is there. */
  lemma {:induction false} LastDecides(leaves: map<Region, Entry>, root: nat, maps: seq<Mapping>, i: nat, j: nat)
    requires AllOk(maps) && i < |maps| && j < maps[i].size / PAGE_SIZE
    requires forall m :: i < m < |maps| ==> !CoversPage(maps[m], VpnPlus(maps[i].va, j))
    ensures var r, all := RegionAt(root, VpnPlus(maps[i].va, j), 0), LinearMapAll(leaves, root, maps);
      r in all && all[r].frame == maps[i].pa / PAGE_SIZE + j && all[r].perm == maps[i].perm
    decreases |maps|
  {
    hide VpnPlus, LinearMap, Mapping.Ok, Huge;
    var n := |maps| - 1;
    var front, last, r := maps[..n], maps[n], RegionAt(root, VpnPlus(maps[i].va, j), 0);
    PagesFit(last);
    LinearMapAt(LinearMapAll(leaves, root, front), root, last.va, last.pa / PAGE_SIZE, last.perm,
                last.size / PAGE_SIZE, r);
    if i < n {
      LastDecides(leaves, root, front, i, j);
      assert !CoversPage(last, VpnPlus(maps[i].va, j));
    }
  }

  /** What no mapping covers is as before. */
  lemma {:induction false} Uncovered(leaves: map<Region, Entry>, root: nat, maps: seq<Mapping>, r: Region)
    requires AllOk(maps)
    requires r.root != root || r.level != 0 || forall i :: 0 <= i < |maps| ==> !CoversPage(maps[i], r.index)
    ensures r in LinearMapAll(leaves, root, maps) <==> r in leaves
  {
    hide VpnPlus, LinearMap, Mapping.Ok, Huge;
    if maps != [] {
      var n := |maps| - 1;
      var front, last := maps[..n], maps[n];
      PagesFit(last);
      LinearMapAt(LinearMapAll(leaves, root, front), root, last.va, last.pa / PAGE_SIZE, last.perm,
                  last.size / PAGE_SIZE, r);
      Uncovered(leaves, root, front, r);
    }
  }

  lemma {:induction false} BothLists(leaves: map<Region, Entry>, root: nat, a: seq<Mapping>, b: seq<Mapping>)
    ensures LinearMapAll(leaves, root, a + b) == LinearMapAll(LinearMapAll(leaves, root, a), root, b)
    decreases |b|
  {
    hide LinearMap;
    if b == [] {
      assert a + b == a;
    } else {
      var n := |b| - 1;
      BothLists(leaves, root, a, b[..n]);
      assert (a + b)[..|a + b| - 1] == a + b[..n];
    }
  }

  // ---- Addresses ----

  /** The number of an address's page among the pages of the 48-bit address space. */
  function PageNumber(va: nat): nat { va / 4096 % 0x10_0000_0000 }

  /** An address of the lower or the upper half. */
  predicate Canonical(va: nat) { va < 0x8000_0000_0000 || UPPER_HALF <= va < WORD_LIMIT }

  /** All of the range lies in one half. */
  predicate InOneHalf(m: Mapping) { m.va + m.size <= 0x8000_0000_0000 || UPPER_HALF <= m.va }

  lemma HalfOf(va: nat)
    requires Canonical(va)
    ensures va < 0x8000_0000_0000 ==> PageNumber(va) == va / 4096 < 0x8_0000_0000
    ensures va >= UPPER_HALF ==> PageNumber(va) == va / 4096 - 0xF_FFF0_0000_0000 >= 0x8_0000_0000
  {
  }

  /** A range of canonical addresses covers the pages it holds and no others. */
  lemma CoversIff(m: Mapping, va: nat)
    requires m.Ok() && InOneHalf(m) && Canonical(va) && va % 4096 == 0
    ensures CoversPage(m, PageNumber(va)) <==> m.va <= va < m.va + m.size
  {
    hide VpnPlus;
    HalfOf(va);
    if m.va <= va < m.va + m.size {
      var j := (va - m.va) / 4096;
      PageOfRange(m.va, j);
      assert m.va + j * 4096 == va;
    }
    if CoversPage(m, PageNumber(va)) {
      var j: nat :| j < m.size / PAGE_SIZE && VpnPlus(m.va, j) == PageNumber(va);
      PageOfRange(m.va, j);
      HalfOf(m.va + j * 4096);
      hide PageNumber;
      SamePage(m.va + j * 4096, va);
    }
  }

  lemma PageOfRange(va: nat, j: nat)
    ensures VpnPlus(va, j) == PageNumber(va + j * 4096)
  {
  }

  lemma SamePage(a: nat, b: nat)
    requires a % 4096 == 0 && b % 4096 == 0 && a / 4096 == b / 4096
    ensures a == b
  {
  }

  /** The pages of a rounded size are those that begin before its end. */
  lemma PagesOfSize(size: nat, j: nat)
    requires size + PAGE_SIZE <= WORD_LIMIT
    ensures j < RoundUp(size) / PAGE_SIZE <==> j * 4096 < size
    ensures RoundUp(size) % 4096 == 0 && size <= RoundUp(size) < size + 4096
  {
    RoundUpIsCeiling(size);
  }

  // ---- The kernel's mappings, one by one ----

  function AllMappings(k: KernelLayout, n: nat): seq<Mapping>
    requires |k.vmasPa| == EnvTable.NENV
  {
    TableMappings(k, n) + ImageMappings(k, n)
  }

  lemma {:induction false} VmaMappingAt(k: KernelLayout, n: nat, i: nat)
    requires i < n <= |k.vmasPa|
    ensures |VmaMappings(k, n)| == n
    ensures var size := RoundUp(VmaList.POOL_SIZE * k.vmaSize);
      VmaMappings(k, n)[i] == Mapping(USER_VMAS + i * size, size, k.vmasPa[i], Or(PAGE_WRITE, PAGE_NO_EXEC))
  {
    hide RoundUp;
    if n > 1 {
      VmaMappingAt(k, n - 1, if i < n - 1 then i else 0);
    }
  }

  predicate Loaded(s: Segment, kernelVma: nat) { s.load && s.va > kernelVma }

  function SegmentPerm(s: Segment): nat {
    if And(s.flags, PAGE_WRITE) != 0 then Or(s.flags, PAGE_NO_EXEC) else s.flags
  }

  ghost predicate OfSegment(m: Mapping, segments: seq<Segment>, kernelVma: nat, from: nat) {
    exists i :: from <= i < |segments| && Loaded(segments[i], kernelVma) &&
      m == Mapping(segments[i].va, RoundUp(segments[i].memSize), segments[i].pa, SegmentPerm(segments[i]))
  }

  lemma OfRest(m: Mapping, segments: seq<Segment>, kernelVma: nat, from: nat)
    requires segments != [] && OfSegment(m, segments[1..], kernelVma, from)
    ensures OfSegment(m, segments, kernelVma, from + 1)
  {
    hide RoundUp, SegmentPerm, Loaded;
    var i :| from <= i < |segments[1..]| && Loaded(segments[1..][i], kernelVma) &&
             m == Mapping(segments[1..][i].va, RoundUp(segments[1..][i].memSize), segments[1..][i].pa,
                          SegmentPerm(segments[1..][i]));
    assert segments[1..][i] == segments[i + 1];
  }

  /** Where the mapping of a loaded segment stands: all behind it are of later segments. */
  lemma {:induction false} SegmentMappingAt(segments: seq<Segment>, kernelVma: nat, i: nat) returns (p: nat)
    requires i < |segments| && Loaded(segments[i], kernelVma)
    ensures var maps, s := SegmentMappings(segments, kernelVma), segments[i];
      && p < |maps| && maps[p] == Mapping(s.va, RoundUp(s.memSize), s.pa, SegmentPerm(s))
      && forall q :: p < q < |maps| ==> OfSegment(maps[q], segments, kernelVma, i + 1)
  {
    hide RoundUp, OfSegment, SegmentPerm, SegmentMappings, Loaded;
    FirstSegment(segments, kernelVma);
    var maps, rest := SegmentMappings(segments, kernelVma), SegmentMappings(segments[1..], kernelVma);
    var shift := |maps| - |rest|;
    if i == 0 {
      AllOfSegments(segments[1..], kernelVma);
      p := 0;
    } else {
      var before := SegmentMappingAt(segments[1..], kernelVma, i - 1);
      p := before + shift;
    }
    forall q | p < q < |maps| ensures OfSegment(maps[q], segments, kernelVma, i + 1) {
      assert maps[q] == rest[q - shift];
      OfRest(maps[q], segments, kernelVma, i);
    }
  }

  lemma FirstSegment(segments: seq<Segment>, kernelVma: nat)
    requires segments != []
    ensures var maps, rest, s := SegmentMappings(segments, kernelVma), SegmentMappings(segments[1..], kernelVma),
                                 segments[0];
      maps == if Loaded(s, kernelVma)
              then [Mapping(s.va, RoundUp(s.memSize), s.pa, SegmentPerm(s))] + rest else rest
  {
  }

  lemma OfMore(m: Mapping, segments: seq<Segment>, kernelVma: nat, from: nat)
    requires OfSegment(m, segments, kernelVma, from)
    ensures OfSegment(m, segments, kernelVma, 0)
  {
  }

  lemma {:induction false} AllOfSegments(segments: seq<Segment>, kernelVma: nat)
    ensures var maps := SegmentMappings(segments, kernelVma);
      forall q :: 0 <= q < |maps| ==> OfSegment(maps[q], segments, kernelVma, 0)
  {
    hide RoundUp, OfSegment, SegmentPerm;
    if segments != [] {
      AllOfSegments(segments[1..], kernelVma);
      FirstSegment(segments, kernelVma);
      var maps, rest := SegmentMappings(segments, kernelVma), SegmentMappings(segments[1..], kernelVma);
      hide SegmentMappings;
      forall q | 0 <= q < |maps| ensures OfSegment(maps[q], segments, kernelVma, 0) {
        if q >= |maps| - |rest| {
          assert maps[q] == rest[q - (|maps| - |rest|)];
          OfRest(maps[q], segments, kernelVma, 0);
          OfMore(maps[q], segments, kernelVma, 1);
        } else {
          OfFirst(segments, kernelVma);
        }
      }
    }
  }

  lemma OfFirst(segments: seq<Segment>, kernelVma: nat)
    requires segments != [] && Loaded(segments[0], kernelVma)
    ensures var s := segments[0];
      OfSegment(Mapping(s.va, RoundUp(s.memSize), s.pa, SegmentPerm(s)), segments, kernelVma, 0)
  {
  }

  const STACK_AT: nat := 1026
  const MEMORY_AT: nat := 1027

  /** The position of each mapping among all of them. */
  lemma Positions(k: KernelLayout, n: nat)
    requires |k.vmasPa| == EnvTable.NENV
    ensures var maps, segs := AllMappings(k, n), SegmentMappings(k.segments, k.kernelVma);
      && |maps| == 1029 + |segs|
      && maps[0] == Mapping(USER_PAGES, RoundUp(n * k.pageInfoSize), k.pagesPa, Or(PAGE_WRITE, PAGE_NO_EXEC))
      && maps[1] == Mapping(USER_ENVS, RoundUp(EnvTable.NENV * k.envSize), k.envsPa,
                            Or(Or(PAGE_WRITE, PAGE_NO_EXEC), PAGE_USER))
      && (forall i :: 0 <= i < EnvTable.NENV ==> maps[2 + i] == VmaMappings(k, EnvTable.NENV)[i])
      && maps[STACK_AT] == Mapping(STACK_BOTTOM, KSTACK_SIZE, k.stackPa, Or(PAGE_WRITE, PAGE_NO_EXEC))
      && maps[MEMORY_AT] == Mapping(k.kernelVma, n * PAGE_SIZE, 0, Or(PAGE_WRITE, PAGE_NO_EXEC))
      && (forall q :: 0 <= q < |segs| ==> maps[1028 + q] == segs[q])
      && maps[1028 + |segs|] == Mapping(k.kernelVma, 0x1_0000_0000, 0, PAGE_WRITE)
    ensures |VmaMappings(k, EnvTable.NENV)| == EnvTable.NENV
  {
    VmaMappingAt(k, EnvTable.NENV, 0);
    hide RoundUp, VmaMappings, SegmentMappings, Or;
    var tables, image, segs := TableMappings(k, n), ImageMappings(k, n), SegmentMappings(k.segments, k.kernelVma);
    assert |tables| == 1027 && |image| == 2 + |segs|;
    assert forall i :: 0 <= i < EnvTable.NENV ==> tables[2 + i] == VmaMappings(k, EnvTable.NENV)[i];
    assert forall q :: 0 <= q < |segs| ==> image[1 + q] == segs[q];
  }

  lemma AllMappingsOk(k: KernelLayout, n: nat)
    requires k.Ok(n) && n <= MAX_FRAMES
    ensures |k.vmasPa| == EnvTable.NENV && AllOk(AllMappings(k, n))
  {
    hide AllOk, TableMappings, ImageMappings;
    TableMappingsOk(k, n);
    ImageMappingsOk(k, n);
    AllOkConcat(TableMappings(k, n), ImageMappings(k, n));
  }

  /** Where the tables of the kernel and its stack lie. */
  lemma TableRange(k: KernelLayout, n: nat, q: nat)
    requires k.Ok(n) && q <= STACK_AT
    ensures |k.vmasPa| == EnvTable.NENV && q < |AllMappings(k, n)|
    ensures var m, size := AllMappings(k, n)[q], RoundUp(VmaList.POOL_SIZE * k.vmaSize);
      && (q == 0 ==> m.va == 0x7F80_0000_0000 && m.va + m.size <= 0x8000_0000_0000 &&
                     m.size == RoundUp(n * k.pageInfoSize))
      && (q == 1 ==> m.va == 0x7F00_0000_0000 && m.va + m.size <= 0x7F80_0000_0000 &&
                     m.size == RoundUp(1024 * k.envSize))
      && (2 <= q < STACK_AT ==>
            m.va == 0x7E80_0000_0000 + (q - 2) * size && m.size == size && m.va + m.size <= 0x7F00_0000_0000)
      && (q == STACK_AT ==> m.va == 0xFFFF_FEFF_FFFF_8000 && m.size == 0x8000)
  {
    Positions(k, n);
    hide AllMappings;
    RoundUpIsCeiling(n * k.pageInfoSize);
    RoundUpIsCeiling(EnvTable.NENV * k.envSize);
    RoundUpIsCeiling(VmaList.POOL_SIZE * k.vmaSize);
    hide RoundUp;
    if 2 <= q < STACK_AT {
      VmaMappingAt(k, EnvTable.NENV, q - 2);
      var i := q - 2;
      assert AllMappings(k, n)[2 + i] == VmaMappings(k, EnvTable.NENV)[i];
      ListFits(q - 2, RoundUp(VmaList.POOL_SIZE * k.vmaSize), VmaList.POOL_SIZE * k.vmaSize + PAGE_SIZE);
    }
  }

  /** Where the image of the kernel and physical memory lie. */
  lemma ImageRange(k: KernelLayout, n: nat, q: nat)
    requires k.Ok(n) && n <= MAX_FRAMES
    requires |k.vmasPa| == EnvTable.NENV && MEMORY_AT <= q < |AllMappings(k, n)|
    ensures var m := AllMappings(k, n)[q];
      && (q == MEMORY_AT || q + 1 == |AllMappings(k, n)| ==> m.va == k.kernelVma && m.size <= 0x1_0000_0000)
      && (MEMORY_AT < q < |AllMappings(k, n)| - 1 ==> OfSegment(m, k.segments, k.kernelVma, 0))
  {
    hide OfSegment, SegmentMappings;
    Positions(k, n);
    hide AllMappings;
    AllOfSegments(k.segments, k.kernelVma);
    if MEMORY_AT < q < |AllMappings(k, n)| - 1 {
      assert AllMappings(k, n)[1028 + (q - 1028)] == SegmentMappings(k.segments, k.kernelVma)[q - 1028];
    }
  }

  // ---- What the address space shows ----

  /** Address `va` of the address space is mapped to a frame with the given permissions. */
  ghost predicate Shows(leaves: map<Region, Entry>, root: nat, va: nat, frame: nat, perm: nat) {
    var r := Region(root, 0, va / 4096 % 0x10_0000_0000);
    r in leaves && leaves[r].frame == frame && leaves[r].perm == perm
  }

  /** The address lies in the 4 GiB behind the kernel's base, or in a segment of its image from number `from` on. */
  ghost predicate InImage(k: KernelLayout, va: nat, from: nat) {
    || k.kernelVma <= va < k.kernelVma + 0x1_0000_0000
    || exists i :: from <= i < |k.segments| && k.segments[i].load && k.segments[i].va > k.kernelVma &&
         k.segments[i].va <= va < k.segments[i].va + k.segments[i].memSize
  }

  lemma ShownBy(k: KernelLayout, n: nat, q: nat, j: nat)
    requires k.Ok(n) && n <= MAX_FRAMES && |k.vmasPa| == EnvTable.NENV && q < |AllMappings(k, n)|
    requires var maps := AllMappings(k, n);
      && j < maps[q].size / PAGE_SIZE
      && forall m :: q < m < |maps| ==> !CoversPage(maps[m], PageNumber(maps[q].va + j * 4096))
    ensures var m := AllMappings(k, n)[q];
      Shows(LinearMapAll(map[], k.root, AllMappings(k, n)), k.root, m.va + j * 4096, m.pa / PAGE_SIZE + j, m.perm)
  {
    hide AllMappings, LinearMapAll;
    AllMappingsOk(k, n);
    PageOfRange(AllMappings(k, n)[q].va, j);
    hide VpnPlus, AllOk;
    LastDecides(map[], k.root, AllMappings(k, n), q, j);
  }

  /** The mapping of a segment covers the page of an address only where the segment is. */
  lemma NotInSegment(k: KernelLayout, n: nat, m: Mapping, from: nat, va: nat)
    requires k.Ok(n) && k.kernelVma >= UPPER_HALF && OfSegment(m, k.segments, k.kernelVma, from) && m.Ok()
    requires Canonical(va) && va % 4096 == 0 && !InImage(k, va, from)
    ensures !CoversPage(m, PageNumber(va))
  {
    hide PageNumber, CoversPage, Mapping.Ok, SegmentPerm, Canonical;
    var i :| from <= i < |k.segments| && Loaded(k.segments[i], k.kernelVma) &&
             m == Mapping(k.segments[i].va, RoundUp(k.segments[i].memSize), k.segments[i].pa,
                          SegmentPerm(k.segments[i]));
    assert SegmentOk(k.segments[i]);
    CoversIff(m, va);
    if m.va <= va < m.va + m.size {
      PagesOfSize(k.segments[i].memSize, (va - m.va) / 4096);
      PageInside(m, va);
    }
  }

  lemma PageInside(m: Mapping, va: nat)
    requires m.Ok() && m.va <= va < m.va + m.size && va % 4096 == 0
    ensures (va - m.va) / 4096 < m.size / PAGE_SIZE && (va - m.va) / 4096 * 4096 == va - m.va
  {
  }

  /** An address outside the image is not covered by the mappings of physical memory and of the segments. */
  lemma OutsideImage(k: KernelLayout, n: nat, va: nat, q: nat)
    requires k.Ok(n) && n <= MAX_FRAMES && k.kernelVma >= UPPER_HALF && |k.vmasPa| == EnvTable.NENV
    requires Canonical(va) && va % 4096 == 0 && !InImage(k, va, 0) && MEMORY_AT <= q < |AllMappings(k, n)|
    ensures !CoversPage(AllMappings(k, n)[q], PageNumber(va))
  {
    hide AllMappings, OfSegment, PageNumber, CoversPage, Mapping.Ok, InImage, KernelLayout.Ok, Canonical;
    AllMappingsOk(k, n);
    ImageRange(k, n, q);
    var m := AllMappings(k, n)[q];
    if q == MEMORY_AT || q + 1 == |AllMappings(k, n)| {
      NotInMemory(k, va, 0);
      CoversIff(m, va);
    } else {
      NotInSegment(k, n, m, 0, va);
    }
  }

  /** Addresses of the lower half are not part of the image. */
  lemma LowIsOutside(k: KernelLayout, va: nat)
    requires k.kernelVma >= UPPER_HALF && va < 0x8000_0000_0000
    ensures !InImage(k, va, 0)
  {
  }

  /** A table of the kernel shows the frames it lies in. */
  lemma TableShown(k: KernelLayout, n: nat, q: nat, j: nat)
    requires k.Ok(n) && n <= MAX_FRAMES && k.kernelVma >= UPPER_HALF && |k.vmasPa| == EnvTable.NENV
    requires q < STACK_AT && q < |AllMappings(k, n)| && j < AllMappings(k, n)[q].size / PAGE_SIZE
    ensures var m := AllMappings(k, n)[q];
      Shows(LinearMapAll(map[], k.root, AllMappings(k, n)), k.root, m.va + j * 4096, m.pa / PAGE_SIZE + j, m.perm)
  {
    hide AllMappings, PageNumber, CoversPage, Mapping.Ok, KernelLayout.Ok, LinearMapAll, Shows, InImage;
    var maps := AllMappings(k, n);
    AllMappingsOk(k, n);
    TableRange(k, n, q);
    var va := maps[q].va + j * 4096;
    PageBounds(maps[q], j);
    LowIsOutside(k, va);
    forall m | q < m < |maps| ensures !CoversPage(maps[m], PageNumber(va)) {
      if m >= MEMORY_AT {
        OutsideImage(k, n, va, m);
      } else {
        TableRange(k, n, m);
        if m < STACK_AT && q >= 2 {
          ListsApart(q - 2, m - 2, RoundUp(VmaList.POOL_SIZE * k.vmaSize));
        }
        CoversIff(maps[m], va);
      }
    }
    ShownBy(k, n, q, j);
  }

  lemma PageBounds(m: Mapping, j: nat)
    requires m.Ok() && j < m.size / PAGE_SIZE
    ensures m.va <= m.va + j * 4096 < m.va + m.size && (m.va + j * 4096) % 4096 == 0
  {
  }

  lemma ListsApart(i: nat, j: nat, size: nat)
    requires i < j
    ensures i * size + size <= j * size
  {
    var d: nat := j - i - 1;
    assert (i + 1 + d) * size == i * size + size + d * size;
  }

  lemma StackShown(k: KernelLayout, n: nat, j: nat)
    requires k.Ok(n) && n <= MAX_FRAMES && k.kernelVma >= UPPER_HALF && |k.vmasPa| == EnvTable.NENV && j < 8
    requires !InImage(k, 0xFFFF_FEFF_FFFF_8000 + j * 4096, 0)
    ensures Shows(LinearMapAll(map[], k.root, AllMappings(k, n)), k.root, 0xFFFF_FEFF_FFFF_8000 + j * 4096,
                  k.stackPa / 4096 + j, Or(PAGE_WRITE, PAGE_NO_EXEC))
  {
    hide AllMappings, PageNumber, CoversPage, Mapping.Ok, KernelLayout.Ok, LinearMapAll, Shows, InImage, Or,
         VmaMappings, SegmentMappings, RoundUp;
    Positions(k, n);
    var maps, va := AllMappings(k, n), 0xFFFF_FEFF_FFFF_8000 + j * 4096;
    forall m | STACK_AT < m < |maps| ensures !CoversPage(maps[m], PageNumber(va)) {
      OutsideImage(k, n, va, m);
    }
    ShownBy(k, n, STACK_AT, j);
  }

  lemma MemoryShown(k: KernelLayout, n: nat, j: nat)
    requires k.Ok(n) && n <= MAX_FRAMES && |k.vmasPa| == EnvTable.NENV && j < 0x10_0000
    ensures Shows(LinearMapAll(map[], k.root, AllMappings(k, n)), k.root, k.kernelVma + j * 4096, j, PAGE_WRITE)
  {
    Positions(k, n);
    hide AllMappings, PageNumber, CoversPage, LinearMapAll, Shows;
    ShownBy(k, n, |AllMappings(k, n)| - 1, j);
  }

  /** Where the mapping of a segment stands, and what stands behind it. */
  lemma SegmentPosition(k: KernelLayout, n: nat, i: nat) returns (q: nat)
    requires k.Ok(n) && |k.vmasPa| == EnvTable.NENV && i < |k.segments| && Loaded(k.segments[i], k.kernelVma)
    ensures var maps, s := AllMappings(k, n), k.segments[i];
      && q < |maps| - 1 && maps[q] == Mapping(s.va, RoundUp(s.memSize), s.pa, SegmentPerm(s))
      && maps[|maps| - 1] == Mapping(k.kernelVma, 0x1_0000_0000, 0, PAGE_WRITE)
      && forall m :: q < m < |maps| - 1 ==> OfSegment(maps[m], k.segments, k.kernelVma, i + 1)
  {
    hide AllMappings, SegmentMappings, OfSegment, SegmentPerm, RoundUp, KernelLayout.Ok, VmaMappings, Or;
    Positions(k, n);
    var maps, segs := AllMappings(k, n), SegmentMappings(k.segments, k.kernelVma);
    var p := SegmentMappingAt(k.segments, k.kernelVma, i);
    q := 1028 + p;
    forall m | q < m < |maps| - 1 ensures OfSegment(maps[m], k.segments, k.kernelVma, i + 1) {
      assert maps[1028 + (m - 1028)] == segs[m - 1028];
    }
  }

  lemma SegmentPage(k: KernelLayout, n: nat, i: nat, j: nat)
    requires k.Ok(n) && k.kernelVma >= UPPER_HALF && i < |k.segments| && Loaded(k.segments[i], k.kernelVma)
    requires j * 4096 < k.segments[i].memSize
    ensures var s := k.segments[i];
      Canonical(s.va + j * 4096) && (s.va + j * 4096) % 4096 == 0 && j < RoundUp(s.memSize) / PAGE_SIZE
  {
    assert SegmentOk(k.segments[i]);
    PagesOfSize(k.segments[i].memSize, j);
  }

  /** Behind the first 4 GiB a segment is shown where no later one covers it. */
  lemma SegmentShown(k: KernelLayout, n: nat, i: nat, j: nat)
    requires k.Ok(n) && n <= MAX_FRAMES && k.kernelVma >= UPPER_HALF && |k.vmasPa| == EnvTable.NENV
    requires i < |k.segments| && Loaded(k.segments[i], k.kernelVma) && j * 4096 < k.segments[i].memSize
    requires !InImage(k, k.segments[i].va + j * 4096, i + 1)
    ensures var s := k.segments[i];
      Shows(LinearMapAll(map[], k.root, AllMappings(k, n)), k.root, s.va + j * 4096, s.pa / 4096 + j, SegmentPerm(s))
  {
    hide AllMappings, PageNumber, CoversPage, Mapping.Ok, LinearMapAll, Shows, OfSegment, SegmentPerm, KernelLayout.Ok,
         Canonical, RoundUp, Loaded, InImage;
    var maps, va := AllMappings(k, n), k.segments[i].va + j * 4096;
    AllMappingsOk(k, n);
    SegmentPage(k, n, i, j);
    var q := SegmentPosition(k, n, i);
    forall m | q < m < |maps| ensures !CoversPage(maps[m], PageNumber(va)) {
      if m + 1 == |maps| {
        NotInMemory(k, va, i + 1);
        CoversIff(maps[m], va);
      } else {
        NotInSegment(k, n, maps[m], i + 1, va);
      }
    }
    ShownBy(k, n, q, j);
  }

  lemma NotInMemory(k: KernelLayout, va: nat, from: nat)
    requires !InImage(k, va, from)
    ensures !(k.kernelVma <= va < k.kernelVma + 0x1_0000_0000)
  {
  }

  // ---- The whole picture ----

  /** The pages from `va` on that begin within `size` bytes are mapped to the frames from `pa` on. */
  ghost predicate ShowsRange(leaves: map<Region, Entry>, root: nat, va: nat, size: nat, pa: nat, perm: nat) {
    forall j: nat :: j * 4096 < size ==> Shows(leaves, root, va + j * 4096, pa / 4096 + j, perm)
  }

  /** The descriptors of all frames, the environments and their lists of areas are shown at fixed addresses of the lower
      half: writable and not executable, and the environments to user programs as well. */
  ghost predicate ShowsTables(k: KernelLayout, n: nat, leaves: map<Region, Entry>)
    requires |k.vmasPa| == 1024
  {
    && ShowsRange(leaves, k.root, 0x7F80_0000_0000, n * k.pageInfoSize, k.pagesPa, 0x8000_0000_0000_0002)
    && ShowsRange(leaves, k.root, 0x7F00_0000_0000, 1024 * k.envSize, k.envsPa, 0x8000_0000_0000_0006)
    && forall i :: 0 <= i < 1024 ==>
         ShowsRange(leaves, k.root, 0x7E80_0000_0000 + i * RoundUp(128 * k.vmaSize), 128 * k.vmaSize, k.vmasPa[i],
                    0x8000_0000_0000_0002)
  }

  /** A segment of the image is shown wherever neither the first 4 GiB nor a later segment covers it. */
  ghost predicate ShowsSegment(k: KernelLayout, leaves: map<Region, Entry>, i: nat)
    requires i < |k.segments|
  {
    var s := k.segments[i];
    forall j: nat :: j * 4096 < s.memSize && !InImage(k, s.va + j * 4096, i + 1) ==>
      Shows(leaves, k.root, s.va + j * 4096, s.pa / 4096 + j,
            if And(s.flags, 2) != 0 then Or(s.flags, 0x8000_0000_0000_0000) else s.flags)
  }

  /** Behind the kernel's base the first 4 GiB of physical memory are shown, writable; above that the loaded segments of
      the kernel's image, at their own frames and with their own flags, writable ones not executable, and where two
      overlap the later one; and the eight pages of the stack, unless the image covers them. */
  ghost predicate ShowsImage(k: KernelLayout, leaves: map<Region, Entry>) {
    && ShowsRange(leaves, k.root, k.kernelVma, 0x1_0000_0000, 0, 2)
    && (forall i :: 0 <= i < |k.segments| && k.segments[i].load && k.segments[i].va > k.kernelVma ==>
          ShowsSegment(k, leaves, i))
    && (forall j: nat :: j < 8 && !InImage(k, 0xFFFF_FEFF_FFFF_8000 + j * 4096, 0) ==>
          Shows(leaves, k.root, 0xFFFF_FEFF_FFFF_8000 + j * 4096, k.stackPa / 4096 + j, 0x8000_0000_0000_0002))
  }

  /** An address that the kernel has something mapped at. */
  ghost predicate IsMapped(k: KernelLayout, n: nat, va: nat) {
    || 0x7F80_0000_0000 <= va < 0x7F80_0000_0000 + n * k.pageInfoSize
    || 0x7F00_0000_0000 <= va < 0x7F00_0000_0000 + 1024 * k.envSize
    || 0x7E80_0000_0000 <= va < 0x7E80_0000_0000 + 1024 * RoundUp(128 * k.vmaSize)
    || 0xFFFF_FEFF_FFFF_8000 <= va < 0xFFFF_FF00_0000_0000
    || InImage(k, va, 0)
  }

  /** Nothing else is mapped: not the rest of the two halves, and in particular not the gap below the stack. */
  ghost predicate ShowsNothingElse(k: KernelLayout, n: nat, leaves: map<Region, Entry>) {
    && (forall va: nat :: Canonical(va) && va % 4096 == 0 && !IsMapped(k, n, va) ==>
          Region(k.root, 0, va / 4096 % 0x10_0000_0000) !in leaves)
    && (forall r :: r in leaves ==> r.root == k.root && r.level == 0)
  }

  lemma PermBits()
    ensures Or(PAGE_WRITE, PAGE_NO_EXEC) == 0x8000_0000_0000_0002
    ensures Or(Or(PAGE_WRITE, PAGE_NO_EXEC), PAGE_USER) == 0x8000_0000_0000_0006
  {
    hide Or;
    Shift12(0x8_0000_0000_0000);
    OrDisjoint(0x8_0000_0000_0000, 2, 12);
    OrDisjoint(0x8_0000_0000_0000, 6, 12);
    OrCommutes(PAGE_WRITE, PAGE_NO_EXEC);
    OrAssociates(PAGE_NO_EXEC, PAGE_WRITE, PAGE_USER);
    assert Or(2, 4) == 6 by { OrStep(2, 4); OrStep(1, 2); OrStep(0, 1); OrStep(0, 0); }
  }

  /** A table of the kernel, all of it. */
  lemma RangeShown(k: KernelLayout, n: nat, q: nat, size: nat)
    requires k.Ok(n) && n <= MAX_FRAMES && k.kernelVma >= UPPER_HALF && |k.vmasPa| == EnvTable.NENV
    requires q < STACK_AT && q < |AllMappings(k, n)| && size + PAGE_SIZE <= WORD_LIMIT
    requires AllMappings(k, n)[q].size == RoundUp(size)
    ensures var m := AllMappings(k, n)[q];
      ShowsRange(LinearMapAll(map[], k.root, AllMappings(k, n)), k.root, m.va, size, m.pa, m.perm)
  {
    hide AllMappings, LinearMapAll, Shows, KernelLayout.Ok, RoundUp;
    var m, leaves := AllMappings(k, n)[q], LinearMapAll(map[], k.root, AllMappings(k, n));
    forall j: nat | j * 4096 < size ensures Shows(leaves, k.root, m.va + j * 4096, m.pa / 4096 + j, m.perm) {
      PagesOfSize(size, j);
      TableShown(k, n, q, j);
    }
  }

  lemma TablesAreShown(k: KernelLayout, n: nat)
    requires k.Ok(n) && n <= MAX_FRAMES && k.kernelVma >= UPPER_HALF
    ensures |k.vmasPa| == 1024
    ensures ShowsTables(k, n, LinearMapAll(map[], k.root, AllMappings(k, n)))
  {
    hide AllMappings, LinearMapAll, Shows, ShowsRange, VmaMappings, Or, RoundUp;
    Positions(k, n);
    PermBits();
    SizesFit(k, n);
    hide KernelLayout.Ok;
    var leaves := LinearMapAll(map[], k.root, AllMappings(k, n));
    RangeShown(k, n, 0, n * k.pageInfoSize);
    RangeShown(k, n, 1, 1024 * k.envSize);
    forall i | 0 <= i < 1024
      ensures ShowsRange(leaves, k.root, 0x7E80_0000_0000 + i * RoundUp(128 * k.vmaSize), 128 * k.vmaSize,
                         k.vmasPa[i], 0x8000_0000_0000_0002)
    {
      VmaMappingAt(k, EnvTable.NENV, i);
      assert AllMappings(k, n)[2 + i] == VmaMappings(k, EnvTable.NENV)[i];
      RangeShown(k, n, 2 + i, 128 * k.vmaSize);
    }
  }

  lemma SegmentIsShown(k: KernelLayout, n: nat, i: nat)
    requires k.Ok(n) && n <= MAX_FRAMES && k.kernelVma >= UPPER_HALF && |k.vmasPa| == EnvTable.NENV
    requires i < |k.segments| && Loaded(k.segments[i], k.kernelVma)
    ensures ShowsSegment(k, LinearMapAll(map[], k.root, AllMappings(k, n)), i)
  {
    hide AllMappings, LinearMapAll, Shows, InImage, Or, And, KernelLayout.Ok;
    var s, leaves := k.segments[i], LinearMapAll(map[], k.root, AllMappings(k, n));
    forall j: nat | j * 4096 < s.memSize && !InImage(k, s.va + j * 4096, i + 1)
      ensures Shows(leaves, k.root, s.va + j * 4096, s.pa / 4096 + j,
                    if And(s.flags, 2) != 0 then Or(s.flags, 0x8000_0000_0000_0000) else s.flags)
    {
      SegmentShown(k, n, i, j);
    }
  }

  lemma ImageIsShown(k: KernelLayout, n: nat)
    requires k.Ok(n) && n <= MAX_FRAMES && k.kernelVma >= UPPER_HALF && |k.vmasPa| == EnvTable.NENV
    ensures ShowsImage(k, LinearMapAll(map[], k.root, AllMappings(k, n)))
  {
    hide AllMappings, LinearMapAll, Shows, Or, InImage, ShowsSegment, KernelLayout.Ok;
    PermBits();
    var leaves := LinearMapAll(map[], k.root, AllMappings(k, n));
    forall j: nat | j * 4096 < 0x1_0000_0000 ensures Shows(leaves, k.root, k.kernelVma + j * 4096, 0 / 4096 + j, 2) {
      MemoryShown(k, n, j);
    }
    forall i | 0 <= i < |k.segments| && k.segments[i].load && k.segments[i].va > k.kernelVma
      ensures ShowsSegment(k, leaves, i)
    {
      SegmentIsShown(k, n, i);
    }
    forall j: nat | j < 8 && !InImage(k, 0xFFFF_FEFF_FFFF_8000 + j * 4096, 0)
      ensures Shows(leaves, k.root, 0xFFFF_FEFF_FFFF_8000 + j * 4096, k.stackPa / 4096 + j, 0x8000_0000_0000_0002)
    {
      StackShown(k, n, j);
    }
  }

  lemma NothingElseIsShown(k: KernelLayout, n: nat)
    requires k.Ok(n) && n <= MAX_FRAMES && k.kernelVma >= UPPER_HALF && |k.vmasPa| == EnvTable.NENV
    ensures ShowsNothingElse(k, n, LinearMapAll(map[], k.root, AllMappings(k, n)))
  {
    hide AllMappings, LinearMapAll, KernelLayout.Ok, IsMapped, PageNumber, Canonical, AllOk;
    var leaves := LinearMapAll(map[], k.root, AllMappings(k, n));
    AllMappingsOk(k, n);
    forall va: nat | Canonical(va) && va % 4096 == 0 && !IsMapped(k, n, va)
      ensures Region(k.root, 0, va / 4096 % 0x10_0000_0000) !in leaves
    {
      forall q | 0 <= q < |AllMappings(k, n)| ensures !CoversPage(AllMappings(k, n)[q], PageNumber(va)) {
        NotMappedThere(k, n, va, q);
      }
      PageNumberIs(va);
      Uncovered(map[], k.root, AllMappings(k, n), Region(k.root, 0, PageNumber(va)));
    }
    forall r | r in leaves ensures r.root == k.root && r.level == 0 {
      if r.root != k.root || r.level != 0 {
        Uncovered(map[], k.root, AllMappings(k, n), r);
      }
    }
  }

  lemma PageNumberIs(va: nat)
    ensures PageNumber(va) == va / 4096 % 0x10_0000_0000
  {
  }

  lemma NotMappedThere(k: KernelLayout, n: nat, va: nat, q: nat)
    requires k.Ok(n) && n <= MAX_FRAMES && k.kernelVma >= UPPER_HALF && |k.vmasPa| == EnvTable.NENV
    requires Canonical(va) && va % 4096 == 0 && !IsMapped(k, n, va) && q < |AllMappings(k, n)|
    ensures !CoversPage(AllMappings(k, n)[q], PageNumber(va))
  {
    AllMappingsOk(k, n);
    if q >= MEMORY_AT {
      OutsideImage(k, n, va, q);
    } else {
      var m := AllMappings(k, n)[q];
      TableRange(k, n, q);
      OutsideTable(k, n, va, q);
      hide AllMappings, PageNumber, CoversPage, Canonical, InImage, IsMapped;
      CoversIff(m, va);
    }
  }

  lemma OutsideTable(k: KernelLayout, n: nat, va: nat, q: nat)
    requires k.Ok(n) && |k.vmasPa| == EnvTable.NENV && q <= STACK_AT
    requires va % 4096 == 0 && !IsMapped(k, n, va) && q < |AllMappings(k, n)|
    ensures var m := AllMappings(k, n)[q]; !(m.va <= va < m.va + m.size)
  {
    hide AllMappings, InImage, RoundUp;
    TableRange(k, n, q);
    SizesFit(k, n);
    hide KernelLayout.Ok;
    if q == 0 {
      OutsidePages(0x7F80_0000_0000, n * k.pageInfoSize, va);
    } else if q == 1 {
      OutsidePages(0x7F00_0000_0000, 1024 * k.envSize, va);
    } else if q < STACK_AT {
      ListsApart(q - 2, 1024, RoundUp(128 * k.vmaSize));
      OutsideLists(k, va, q - 2, RoundUp(128 * k.vmaSize));
    }
  }

  lemma OutsideLists(k: KernelLayout, va: nat, i: nat, size: nat)
    requires !(0x7E80_0000_0000 <= va < 0x7E80_0000_0000 + 1024 * size) && i * size + size <= 1024 * size
    ensures !(0x7E80_0000_0000 + i * size <= va < 0x7E80_0000_0000 + i * size + size)
  {
  }

  lemma SizesFit(k: KernelLayout, n: nat)
    requires k.Ok(n)
    ensures n * k.pageInfoSize + PAGE_SIZE <= WORD_LIMIT && 1024 * k.envSize + PAGE_SIZE <= WORD_LIMIT
    ensures 128 * k.vmaSize + PAGE_SIZE <= WORD_LIMIT
  {
  }

  lemma OutsidePages(base: nat, size: nat, va: nat)
    requires base % 4096 == 0 && va % 4096 == 0 && !(base <= va < base + size)
    ensures size + PAGE_SIZE <= WORD_LIMIT ==> !(base <= va < base + RoundUp(size))
  {
    if base <= va && size + PAGE_SIZE <= WORD_LIMIT {
      PagesOfSize(size, (va - base) / 4096);
    }
  }

  // ---- Start-up ----

  /** Reserves the gap below the kernel stack. */
  method ReserveGap(pt: PageTables, root: nat)
    requires pt.Valid() && pt.stale == {} && Region(root, 4, 0) in pt.tree.tables && StaticOnly(pt.tree, root)
    requires HasTables(pt.tree, root, GAP_BOTTOM, KSTACK_GAP / PAGE_SIZE)
    modifies pt`tree, pt.pm`pageFreeList, pt.pm`free, pt.pm`owned, pt.pm.pages, pt.pm.words, pt.pm.bytes
    ensures pt.Valid() && pt.Snap() == old(pt.Snap())
  {
    hide HasTables, StaticOnly, PhysicalMemory.Valid, Tree.Sound, AllEncodable, Counted, InMemory;
    ReservePages(pt, root, GAP_BOTTOM, KSTACK_GAP);
  }

  /** Builds the kernel's address space. It succeeds exactly when there is a free frame for each of its page
      tables, and then maps what the two lists say, later ranges over earlier ones. */
  method MemInit(pt: PageTables, k: KernelLayout) returns (ok: bool)
    requires pt.Valid() && pt.stale == {} && pt.tree == Tree(map[], map[], {}) && k.Ok(pt.pm.npages)
    requires Node(k.root, false) in pt.pm.owned && pt.pm.pages[k.root].ppRef == 0
    modifies pt`tree, pt.pm`pageFreeList, pt.pm`free, pt.pm`owned, pt.pm.pages, pt.pm.words, pt.pm.bytes
    ensures pt.Valid()
    ensures ok <==> old(Weight(pt.pm.free)) >= |KernelTables(k, pt.pm.npages)|
    ensures ok ==>
      && Weight(pt.pm.free) == old(Weight(pt.pm.free)) - |KernelTables(k, pt.pm.npages)|
      && StaticOnly(pt.tree, k.root)
      && pt.tree.tables.Keys == {Region(k.root, 4, 0)} + KernelTables(k, pt.pm.npages)
      && pt.tree.Unused(pt.pm.owned) == old(pt.pm.owned) - {Node(k.root, false)}
      && pt.tree.Leaves() == LinearMapAll(LinearMapAll(map[], k.root, TableMappings(k, pt.pm.npages)),
                                          k.root, ImageMappings(k, pt.pm.npages))
    ensures ok && k.kernelVma >= 0xFFFF_8000_0000_0000 ==>
      && |k.vmasPa| == 1024
      && ShowsTables(k, pt.pm.npages, pt.tree.Leaves()) && ShowsImage(k, pt.tree.Leaves())
      && ShowsNothingElse(k, pt.pm.npages, pt.tree.Leaves())
  {
    hide ShowsTables, ShowsImage, ShowsNothingElse;
    hide Partition, Listed, Owns, Counted, AllEncodable, InMemory, Tree.Unaliased, Tree.Held, Weight, Built, Short,
         TablesForAll, LinearMapAll, TableMappings, ImageMappings, StaticOnly, AllOk, RegionAt, VpnPlus, Tree.Leaves,
         HasTables, Tree.Unused;
    ghost var n := pt.pm.npages;
    TableMappingsOk(k, n);
    ImageMappingsOk(k, n);
    NothingUsed(pt.tree, pt.pm.owned);
    pt.AdoptRoot(k.root);
    FreshRoot(pt.tree, k.root);
    ghost var v0 := pt.Snap();
    ghost var t1, t2 := TablesForAll(k.root, TableMappings(k, n)), TablesForAll(k.root, ImageMappings(k, n));
    NeededTables(v0, k.root, TableMappings(k, n), ImageMappings(k, n));
    ok := MapAll(pt, k.root, TableMappings(k, pt.pm.npages));
    if !ok {
      ShortMore(v0, t1, t1 + t2);
      return;
    }
    ghost var v1 := pt.Snap();
    BuiltHas(v0, v1, t1);
    var cell := pt.PageWalk(k.root, USER_ENVS, Lookup);
    GapHasTables(k, n, pt.tree);
    ReserveGap(pt, k.root);
    ok := MapAll(pt, k.root, ImageMappings(k, pt.pm.npages));
    if !ok {
      ShortLater(v0, v1, t1, t2, t1 + t2);
    } else {
      BuiltTransitive(v0, v1, pt.Snap(), t1, t2);
      BuiltIsNotShort(v0, pt.Snap(), t1 + t2);
      BuiltHas(v0, pt.Snap(), t1 + t2);
      SpaceIs(k, n);
    }
  }

  /** The flat view of all mappings. */
  lemma SpaceIs(k: KernelLayout, n: nat)
    requires k.Ok(n) && n <= MAX_FRAMES
    ensures |k.vmasPa| == EnvTable.NENV
    ensures var leaves := LinearMapAll(LinearMapAll(map[], k.root, TableMappings(k, n)), k.root, ImageMappings(k, n));
      k.kernelVma >= UPPER_HALF ==>
        ShowsTables(k, n, leaves) && ShowsImage(k, leaves) && ShowsNothingElse(k, n, leaves)
  {
    BothLists(map[], k.root, TableMappings(k, n), ImageMappings(k, n));
    hide ShowsTables, ShowsImage, ShowsNothingElse, LinearMapAll, TableMappings, ImageMappings;
    if k.kernelVma >= UPPER_HALF {
      TablesAreShown(k, n);
      ImageIsShown(k, n);
      NothingElseIsShown(k, n);
    }
  }

  lemma FreshRoot(t: Tree, root: nat)
    requires t == Tree(map[], map[], {}).AddFixedRoot(root)
    ensures Region(root, 4, 0) in t.tables && StaticOnly(t, root) && t.Leaves() == map[]
    ensures t.tables.Keys == {Region(root, 4, 0)}
  {
  }

  lemma NeededTables(v: Snapshot, root: nat, a: seq<Mapping>, b: seq<Mapping>)
    requires v.tree.tables.Keys == {Region(root, 4, 0)}
    ensures var all := TablesForAll(root, a) + TablesForAll(root, b);
      && all - v.tree.tables.Keys == all && (Short(v, all) <==> v.spare < |all|)
  {
    TablesForAllLevels(root, a);
    TablesForAllLevels(root, b);
    var all := TablesForAll(root, a) + TablesForAll(root, b);
    assert all - v.tree.tables.Keys == all;
  }

  lemma ShortMore(v: Snapshot, needed: set<Region>, all: set<Region>)
    requires Short(v, needed) && needed <= all
    ensures Short(v, all)
  {
    SubsetSize(needed - v.tree.tables.Keys, all - v.tree.tables.Keys);
  }

  lemma BuiltHas(v: Snapshot, v': Snapshot, needed: set<Region>)
    requires Built(v, v', needed)
    ensures v'.tree.tables.Keys == v.tree.tables.Keys + needed
    ensures v'.tree.Unused(v'.owned) == v.tree.Unused(v.owned)
  {
  }

  lemma NothingUsed(t: Tree, owned: set<Node>)
    requires t == Tree(map[], map[], {})
    ensures t.Unused(owned) == owned
  {
  }
}

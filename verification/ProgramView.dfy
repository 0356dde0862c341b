/** What a program reads: its file where its headers say so, and zeros everywhere else it may go. */
module ProgramView {
  import opened FreeList
  import opened Bits
  import opened Paging
  import opened Frames
  import opened Tree
  import opened PageTables
  import opened VmaSpec
  import VL = VmaList
  import opened Views
  import opened Budget
  import opened VmaCalls
  import opened Kernel

  /** The contents of a new list of areas. */
  function FreshList(): seq<Area> {
    seq(VL.POOL_SIZE, _ => UNUSED)
  }

  /** The program reads byte b at address x, in a page with the given permissions. */
  ghost predicate Reads(view: map<Region, PageView>, root: nat, x: nat, b: byte, perm: nat) {
    var r := Region(root, 0, x / 4096);
    r in view && view[r].perm == perm && |view[r].bytes| == 4096 && view[r].bytes[x % 4096] == b
  }

  /** The byte of an area at an address, once its page has been faulted in, whatever else has been. */
  lemma AreaReads(view: map<Region, PageView>, root: nat, areas: seq<Area>, image: int -> byte, order: seq<nat>,
                  a: Area, x: nat)
    requires Spaced(areas) && a in areas && a.Covers(x)
    requires (forall y :: y in order ==> y % 4096 == 0) && x / 4096 * 4096 in order
    ensures Reads(FaultAll(view, root, areas, image, order), root, x, SegmentByte(a, image, x), a.perm)
  {
    hide SegmentByte;
    var i :| 0 <= i < |areas| && areas[i] == a;
    assert Aligned(a);
    var page := x / 4096 * 4096;
    FindUnique(areas, page, i);
    FaultAllAt(view, root, areas, image, order, Region(root, 0, x / 4096));
    assert Content(a, image, page)[x % 4096] == SegmentByte(a, image, page + x % 4096);
  }

  // ---- A loaded program ----

  lemma WriteUser()
    ensures Or(PAGE_WRITE, PAGE_USER) == 6
  {
    OrStep(2, 4);
    OrStep(1, 2);
    OrStep(0, 1);
    OrStep(0, 0);
  }

  lemma FreshIsEmpty()
    ensures Visible(FreshList()) == [] && TidyList(FreshList()) && |FreshList()| == VL.POOL_SIZE
  {
    VisibleIsPrefix(FreshList(), []);
  }

  lemma ProgramAreaIsBacked(segments: seq<ProgramSegment>, i: nat)
    requires forall j :: 0 <= j < |segments| ==> SegmentFits(segments[j])
    requires i < |ProgramAreas(segments)|
    ensures Aligned(ProgramAreas(segments)[i]) && Backed(ProgramAreas(segments)[i])
  {
    hide Aligned, Backed, SegmentFits, SegmentArea, PageArea, ProgramAreas;
    ProgramAreasAre(segments);
    if i < |segments| {
      SegmentIsBacked(segments[i]);
    } else {
      PageIsBacked(USTACK_TOP - PAGE_SIZE, Or(PAGE_WRITE, PAGE_USER));
      PageIsBacked(UTEMP, PAGE_USER);
      PageIsBacked(UTEMP + PAGE_SIZE, Or(PAGE_WRITE, PAGE_USER));
    }
  }

  lemma {:induction false} GoodAfterInserts(list: seq<Area>, segments: seq<ProgramSegment>, n: nat)
    requires GoodList(list) && forall i :: 0 <= i < |segments| ==> SegmentFits(segments[i])
    requires n <= |ProgramAreas(segments)|
    ensures GoodList(AfterInserts(list, ProgramAreas(segments)[..n]))
    decreases n
  {
    hide GoodList, AfterInserts, SegmentFits, ProgramAreas, Aligned, Backed;
    var img := ProgramAreas(segments);
    if n == 0 {
      NothingInserted(list, img);
    } else {
      GoodAfterInserts(list, segments, n - 1);
      ProgramAreaIsBacked(segments, n - 1);
      OneMoreInsert(list, img, n - 1);
      InsertionMeaning(AfterInserts(list, img[..n - 1]), img[n - 1]);
    }
  }

  /** An area that a lookup sees stays in sight while the rest of the program is loaded. */
  lemma {:induction false} StaysInSight(list: seq<Area>, segments: seq<ProgramSegment>, m: nat, n: nat, a: Area)
    requires GoodList(list) && forall i :: 0 <= i < |segments| ==> SegmentFits(segments[i])
    requires m <= n <= |ProgramAreas(segments)| && a in Visible(AfterInserts(list, ProgramAreas(segments)[..m]))
    ensures a in Visible(AfterInserts(list, ProgramAreas(segments)[..n]))
    decreases n
  {
    hide GoodList, AfterInserts, SegmentFits, ProgramAreas, Aligned, Backed, Visible;
    var img := ProgramAreas(segments);
    if m < n {
      StaysInSight(list, segments, m, n - 1, a);
      GoodAfterInserts(list, segments, n - 1);
      ProgramAreaIsBacked(segments, n - 1);
      OneMoreInsert(list, img, n - 1);
      InsertionMeaning(AfterInserts(list, img[..n - 1]), img[n - 1]);
    }
  }

  /** Nothing that a lookup sees touches the pages of [start, end), and a node is left. */
  ghost predicate Accepted(list: seq<Area>, start: nat, end: nat) {
    && list != [] && list[|list| - 1].kind == VmaUnused
    && forall k :: 0 <= k < |Visible(list)| ==>
         Visible(list)[k].End() <= RoundDown(start) || RoundUp(end) < Visible(list)[k].va
  }

  /** The byte that a program header puts at an address of its pages: that of the file in the part of the segment that
      the file has contents for, and zero behind it and in what is left of the first and the last page. */
  ghost function HeaderByte(p: ProgramSegment, image: int -> byte, x: nat): byte {
    if p.memVa <= x < p.memVa + p.memSize && x < p.memVa + p.fileSize then image(p.fileVa + (x - p.memVa)) else 0
  }

  /** From the program header to the bytes a program reads: when a segment finds room, every address of its pages reads,
      once its page has been faulted in, the byte of the file at its place in the segment, and zero behind the file
      part, and may be written. The order of the faults does not matter, and neither does what else has been loaded. */
  lemma SegmentReads(list: seq<Area>, segments: seq<ProgramSegment>, i: nat, view: map<Region, PageView>, root: nat,
                     image: int -> byte, order: seq<nat>, x: nat)
    requires GoodList(list) && forall j :: 0 <= j < |segments| ==> SegmentFits(segments[j])
    requires i < |segments|
    requires RoundDown(segments[i].memVa) <= x < RoundUp(segments[i].memVa + segments[i].memSize)
    requires Accepted(AfterInserts(list, ProgramAreas(segments)[..i]), segments[i].memVa,
                      segments[i].memVa + segments[i].memSize)
    requires (forall y :: y in order ==> y % 4096 == 0) && x / 4096 * 4096 in order
    ensures var p, areas := segments[i], Visible(AfterInserts(list, ProgramAreas(segments)));
      Reads(FaultAll(view, root, areas, image, order), root, x,
            if p.memVa <= x < p.memVa + p.memSize && x < p.memVa + p.fileSize
            then image(p.fileVa + (x - p.memVa)) else 0, 6)
  {
    hide GoodList, AfterInserts, ProgramAreas, Aligned, Backed, Visible, FaultAll, Reads, Or, RoundUp, RoundDown;
    var img, p := ProgramAreas(segments), segments[i];
    ProgramAreasAre(segments);
    var before, a := AfterInserts(list, img[..i]), SegmentArea(p);
    WriteUser();
    ProgramAreaIsBacked(segments, i);
    SegmentHolds(p, image, x);
    SegmentRange(p);
    hide SegmentFits, SegmentArea, SegmentByte;
    GoodAfterInserts(list, segments, i);
    GoodIsSpaced(before);
    FitsIffApart(Visible(before), a.va, a.End());
    InsertionMeaning(before, a);
    OneMoreInsert(list, img, i);
    StaysInSight(list, segments, i + 1, |img|, a);
    assert img[..|img|] == img;
    GoodAfterInserts(list, segments, |img|);
    GoodIsSpaced(AfterInserts(list, img));
    AreaReads(view, root, Visible(AfterInserts(list, img)), image, order, a, x);
  }

  lemma GoodIsSpaced(list: seq<Area>)
    requires GoodList(list)
    ensures Spaced(Visible(list))
  {
  }

  lemma SegmentRange(p: ProgramSegment)
    requires SegmentFits(p)
    ensures SegmentArea(p).va == RoundDown(p.memVa) && SegmentArea(p).End() == RoundUp(p.memVa + p.memSize)
  {
    RoundUpIsCeiling(p.memVa + p.memSize);
  }

  // ---- A whole program ----

  /** Two ranges of whole pages, of which the second is added later: they do not overlap, and the later one does not end
      where the earlier one starts. */
  predicate Apart(start: nat, end: nat, laterStart: nat, laterEnd: nat) {
    RoundUp(end) <= RoundDown(laterStart) || RoundUp(laterEnd) < RoundDown(start)
  }

  /** The segments of a program lie apart from each other, from the page of its stack and from its two other pages. */
  ghost predicate Separate(segments: seq<ProgramSegment>) {
    && (forall i, j :: 0 <= i < j < |segments| ==>
          Apart(segments[i].memVa, segments[i].memVa + segments[i].memSize,
                segments[j].memVa, segments[j].memVa + segments[j].memSize))
    && (forall i :: 0 <= i < |segments| ==>
          var start, end := segments[i].memVa, segments[i].memVa + segments[i].memSize;
          && Apart(start, end, 0x7EFF_FFFF_D000, 0x7EFF_FFFF_E000)
          && Apart(start, end, 0x1000, 0x2000) && Apart(start, end, 0x2000, 0x3000))
  }

  /** What a program reads in the pages that have been faulted in: its segments, filled from its file and with zeros
      behind that, and its stack and two more pages, of zeros, of which the first cannot be written. */
  ghost predicate ReadsProgram(view: map<Region, PageView>, root: nat, segments: seq<ProgramSegment>,
                               image: int -> byte, order: seq<nat>)
  {
    && (forall i: nat, x: nat {:trigger segments[i], Touched(order, x)} ::
          i < |segments| && Touched(order, x) &&
          RoundDown(segments[i].memVa) <= x < RoundUp(segments[i].memVa + segments[i].memSize) ==>
            Reads(view, root, x, HeaderByte(segments[i], image, x), 6))
    && (forall x: nat :: 0x7EFF_FFFF_D000 <= x < 0x7EFF_FFFF_E000 && Touched(order, x) ==> Reads(view, root, x, 0, 6))
    && (forall x: nat :: 0x1000 <= x < 0x2000 && Touched(order, x) ==> Reads(view, root, x, 0, 4))
    && (forall x: nat :: 0x2000 <= x < 0x3000 && Touched(order, x) ==> Reads(view, root, x, 0, 6))
  }

  /** The page of the address is among those that have been faulted in. */
  ghost predicate Touched(order: seq<nat>, x: nat) { x / 4096 * 4096 in order }

  lemma PageAreaHolds(va: nat, perm: nat)
    requires va % 4096 == 0 && va + 4096 <= USER_TOP
    ensures var a := PageArea(va, perm);
      a.va == va && a.End() == va + 4096 && a.perm == perm && a.kind == VmaAnon
  {
    RoundsToItself(va);
    RoundsToItself(va + 4096);
  }

  lemma SeparateIsApart(segments: seq<ProgramSegment>)
    requires Separate(segments) && forall i :: 0 <= i < |segments| ==> SegmentFits(segments[i])
    ensures KeepApart(ProgramAreas(segments))
  {
    hide RoundUp, RoundDown;
    var img, n := ProgramAreas(segments), |segments|;
    ProgramAreasAre(segments);
    PageAreaHolds(USTACK_TOP - PAGE_SIZE, Or(PAGE_WRITE, PAGE_USER));
    PageAreaHolds(UTEMP, PAGE_USER);
    PageAreaHolds(UTEMP + PAGE_SIZE, Or(PAGE_WRITE, PAGE_USER));
    FixedPages();
    forall i | 0 <= i < n
      ensures img[i].va == RoundDown(segments[i].memVa) &&
              img[i].End() == RoundUp(segments[i].memVa + segments[i].memSize)
    {
      SegmentRange(segments[i]);
    }
    hide ProgramAreas, SegmentArea, PageArea, SegmentFits, Or;
    forall i, j | 0 <= i < j < |img| ensures img[i].End() <= img[j].va || img[j].End() < img[i].va {
      if j < n {
        assert Apart(segments[i].memVa, segments[i].memVa + segments[i].memSize,
                     segments[j].memVa, segments[j].memVa + segments[j].memSize);
      }
    }
  }

  lemma FixedPages()
    ensures RoundDown(0x7EFF_FFFF_D000) == 0x7EFF_FFFF_D000 && RoundUp(0x7EFF_FFFF_E000) == 0x7EFF_FFFF_E000
    ensures RoundDown(0x1000) == 0x1000 && RoundUp(0x2000) == 0x2000
    ensures RoundDown(0x2000) == 0x2000 && RoundUp(0x3000) == 0x3000
  {
    RoundsToItself(0x7EFF_FFFF_E000);
    RoundsToItself(0x2000);
    RoundsToItself(0x3000);
  }

  /** A program of at most 125 segments whose areas do not touch is not rejected, and a lookup then sees all of it. */
  lemma ApartSegmentsSucceed(segments: seq<ProgramSegment>)
    requires forall i :: 0 <= i < |segments| ==> SegmentFits(segments[i])
    requires |segments| + 3 <= VL.POOL_SIZE && KeepApart(ProgramAreas(segments))
    ensures SegmentsSucceed(FreshList(), segments)
    ensures var img := ProgramAreas(segments);
      forall a :: a in Visible(AfterInserts(FreshList(), img)) <==> a in img
  {
    hide Aligned, Backed, SegmentFits, SegmentArea, PageArea, AfterInserts, InsertSucceeds, KeepApart, Visible,
         ProgramAreas;
    var list, img := FreshList(), ProgramAreas(segments);
    FreshIsEmpty();
    ProgramAreasAre(segments);
    forall i | 0 <= i < |img| ensures Aligned(img[i]) && Backed(img[i]) {
      ProgramAreaIsBacked(segments, i);
    }
    forall k | 0 <= k < |segments| ensures InsertSucceeds(AfterInserts(list, img[..k]), img[k]) {
      LoadedWhole(list, img, k);
    }
    LoadedWhole(list, img, |img|);
    assert img[..|img|] == img;
  }

  /** What a lookup sees once a separate program has been loaded: exactly its areas. */
  lemma ProgramLoaded(segments: seq<ProgramSegment>)
    requires Separate(segments) && |segments| + 3 <= VL.POOL_SIZE
    requires forall i :: 0 <= i < |segments| ==> SegmentFits(segments[i])
    ensures SegmentsSucceed(FreshList(), segments)
    ensures var areas := Visible(AfterInserts(FreshList(), ProgramAreas(segments)));
      Spaced(areas) && forall a :: a in areas <==> a in ProgramAreas(segments)
  {
    hide Separate, SegmentFits, ProgramAreas, AfterInserts, SegmentsSucceed, KeepApart, Visible, GoodList, Spaced;
    FreshIsEmpty();
    EmptyIsGood(FreshList());
    SeparateIsApart(segments);
    ApartSegmentsSucceed(segments);
    GoodAfterInserts(FreshList(), segments, |ProgramAreas(segments)|);
    assert ProgramAreas(segments)[..|ProgramAreas(segments)|] == ProgramAreas(segments);
    GoodIsSpaced(AfterInserts(FreshList(), ProgramAreas(segments)));
  }

  lemma ProgramReads(segments: seq<ProgramSegment>, view: map<Region, PageView>, root: nat, image: int -> byte,
                     order: seq<nat>)
    requires Separate(segments) && |segments| + 3 <= VL.POOL_SIZE
    requires forall i :: 0 <= i < |segments| ==> SegmentFits(segments[i])
    requires forall y :: y in order ==> y % 4096 == 0
    ensures var areas := Visible(AfterInserts(FreshList(), ProgramAreas(segments)));
      ReadsProgram(FaultAll(view, root, areas, image, order), root, segments, image, order)
  {
    hide Separate, ProgramAreas, AfterInserts, Visible, Aligned, Spaced, FaultAll, Reads, SegmentArea, PageArea,
         SegmentFits, Or, HeaderByte, RoundUp, RoundDown;
    var areas, img, n := Visible(AfterInserts(FreshList(), ProgramAreas(segments))), ProgramAreas(segments), |segments|;
    var view' := FaultAll(view, root, areas, image, order);
    ProgramLoaded(segments);
    ProgramAreasAre(segments);
    WriteUser();
    forall i: nat, x: nat {:trigger segments[i], Touched(order, x)} |
      i < |segments| && Touched(order, x) &&
      RoundDown(segments[i].memVa) <= x < RoundUp(segments[i].memVa + segments[i].memSize)
      ensures Reads(view', root, x, HeaderByte(segments[i], image, x), 6)
    {
      SegmentHolds(segments[i], image, x);
      assert img[i] in img;
      AreaReads(view, root, areas, image, order, img[i], x);
    }
    forall x: nat | 0x7EFF_FFFF_D000 <= x < 0x7EFF_FFFF_E000 && Touched(order, x) ensures Reads(view', root, x, 0, 6) {
      PageAreaHolds(USTACK_TOP - PAGE_SIZE, Or(PAGE_WRITE, PAGE_USER));
      assert img[n] in img;
      AreaReads(view, root, areas, image, order, img[n], x);
    }
    forall x: nat | 0x1000 <= x < 0x2000 && Touched(order, x) ensures Reads(view', root, x, 0, 4) {
      PageAreaHolds(UTEMP, PAGE_USER);
      assert img[n + 1] in img;
      AreaReads(view, root, areas, image, order, img[n + 1], x);
    }
    forall x: nat | 0x2000 <= x < 0x3000 && Touched(order, x) ensures Reads(view', root, x, 0, 6) {
      PageAreaHolds(UTEMP + PAGE_SIZE, Or(PAGE_WRITE, PAGE_USER));
      assert img[n + 2] in img;
      AreaReads(view, root, areas, image, order, img[n + 2], x);
    }
  }

  lemma SegmentHolds(p: ProgramSegment, image: int -> byte, x: nat)
    requires SegmentFits(p) && RoundDown(p.memVa) <= x < RoundUp(p.memVa + p.memSize)
    ensures SegmentArea(p).Covers(x) && SegmentArea(p).perm == Or(PAGE_WRITE, PAGE_USER)
    ensures SegmentByte(SegmentArea(p), image, x) == HeaderByte(p, image, x)
  {
    SegmentRange(p);
    hide Or, RoundUp, RoundDown;
    NewAreaHolds(VmaBinary, p.memVa, p.memSize, Or(PAGE_WRITE, PAGE_USER), p.fileVa, p.fileSize);
  }

  /** A page of a segment, of the stack, or one of the two others. */
  ghost predicate OfProgram(segments: seq<ProgramSegment>, y: nat) {
    || y == 0x7EFF_FFFF_D000 || y == 0x1000 || y == 0x2000
    || exists i :: 0 <= i < |segments| &&
         RoundDown(segments[i].memVa) <= y < RoundUp(segments[i].memVa + segments[i].memSize)
  }

  /** A page of the program lies in an area that a lookup finds. */
  lemma ProgramPageFound(segments: seq<ProgramSegment>, y: nat)
    requires Separate(segments) && |segments| + 3 <= VL.POOL_SIZE
    requires (forall i :: 0 <= i < |segments| ==> SegmentFits(segments[i])) && OfProgram(segments, y)
    ensures Find(Visible(AfterInserts(FreshList(), ProgramAreas(segments))), y).Some?
  {
    hide Separate, ProgramAreas, AfterInserts, Visible, Aligned, Spaced, SegmentArea, PageArea, SegmentFits, Or,
         RoundUp, RoundDown;
    var areas, img, n := Visible(AfterInserts(FreshList(), ProgramAreas(segments))), ProgramAreas(segments), |segments|;
    ProgramLoaded(segments);
    ProgramAreasAre(segments);
    PageAreaHolds(USTACK_TOP - PAGE_SIZE, Or(PAGE_WRITE, PAGE_USER));
    PageAreaHolds(UTEMP, PAGE_USER);
    PageAreaHolds(UTEMP + PAGE_SIZE, Or(PAGE_WRITE, PAGE_USER));
    var at := n;
    if y == 0x1000 {
      at := n + 1;
    } else if y == 0x2000 {
      at := n + 2;
    } else if y != 0x7EFF_FFFF_D000 {
      var i :| 0 <= i < |segments| &&
               RoundDown(segments[i].memVa) <= y < RoundUp(segments[i].memVa + segments[i].memSize);
      SegmentRange(segments[i]);
      at := i;
    }
    assert img[at] in areas && img[at].Covers(y);
    var k :| 0 <= k < |areas| && areas[k] == img[at];
  }

  lemma EnvShape(env: Env)
    requires env.Valid()
    ensures env.vmas.areas == Visible(env.vmas.Contents()) && |env.vmas.nodes| == |env.vmas.Contents()|
  {
    env.vmas.Shape();
  }

  /** Loads a program into a new environment and runs into some of its pages, in any order and as often as one likes:
      false when a frame for the loading or for one of the faults is missing. The program then reads what its headers
      say. */
  method LoadAndFault(env: Env, segments: seq<ProgramSegment>, order: seq<nat>) returns (ok: bool)
    requires env.Valid() && env.Coherent() && env.vmas.Contents() == FreshList()
    requires Separate(segments) && |segments| + 3 <= VL.POOL_SIZE
    requires forall i :: 0 <= i < |segments| ==> SegmentFits(segments[i])
    requires forall y :: y in order ==> y % 4096 == 0 && OfProgram(segments, y)
    modifies env.vmas, env.vmas.pool
    modifies env.pt`tree, env.pt.pm`pageFreeList, env.pt.pm`free, env.pt.pm`owned, env.pt.pm.pages, env.pt.pm.words,
             env.pt.pm.bytes
    ensures env.Valid()
    ensures !ok ==> old(env.pt.pm.free) == [] || env.pt.pm.free == []
    ensures ok ==> env.Coherent() && ReadsProgram(env.View(), env.pml4, segments, env.image, order)
  {
    hide PageTables.Valid, VL.VmaList.Valid, Env.Valid, Env.Coherent, Separate, SegmentFits, ProgramAreas, AfterInserts,
         SegmentsSucceed, ReadsProgram, OfProgram, FaultAll, OneWasted, Clean, Cost, PathsTo, NewPages, ViewOf, Visible;
    ProgramLoaded(segments);
    EnvShape(env);
    assert |FreshList()| == VL.POOL_SIZE;
    ok := env.LoadIcode(segments);
    if !ok {
      return;
    }
    EnvShape(env);
    forall y | y in order ensures Find(env.vmas.areas, y).Some? {
      ProgramPageFound(segments, y);
    }
    ProgramReads(segments, env.View(), env.pml4, env.image, order);
    ok := env.FaultSequence(order);
  }

  // ---- Areas created and split ----

  /** A page of a new anonymous area that is faulted in reads as zeros, with the permissions asked for: as if the area
      had been populated at once. */
  lemma CreatedReads(list: seq<Area>, size: nat, perm: nat, view: map<Region, PageView>, root: nat, image: int -> byte,
                     order: seq<nat>, x: nat)
    requires GoodList(list) && SizeOk(list, size) && perm < PAGE_SIZE && size > 0
    requires CreateSucceeds(list, size, perm) && !CreateHides(list, size)
    requires CreateVa(list, size) <= x < CreateVa(list, size) + RoundUp(size)
    requires (forall y :: y in order ==> y % 4096 == 0) && x / 4096 * 4096 in order
    ensures Reads(FaultAll(view, root, Visible(AfterCreate(list, size, perm)), image, order), root, x, 0, perm)
  {
    hide GoodList, CreateSucceeds, Visible, FaultAll, Reads, Aligned, Backed, Fits, Placed, StartsNowhere,
         InsertSucceeds, AfterInsert, Vmem, RoundUp, RoundDown, NewArea;
    var va, areas, spare := CreateVa(list, size), Visible(list), HasRoom(list);
    CreateIsInsert(list, size, perm);
    CreateMeaning(list, size, perm);
    RoundUpIsCeiling(size);
    NewAreaBounds(va, size, perm);
    NewAreaHolds(VmaAnon, va, size, perm, 0, 0);
    var a := NewArea(VmaAnon, va, size, perm, 0, 0);
    GoodIsSpaced(list);
    VmemIsPlaced(areas, spare, RoundUp(size));
    PlacementFitsUnlessExact(areas, spare, RoundUp(size), va);
    InsertionMeaning(list, a);
    GoodIsSpaced(AfterCreate(list, size, perm));
    AreaReads(view, root, Visible(AfterCreate(list, size, perm)), image, order, a, x);
  }

  lemma CreateIsInsert(list: seq<Area>, size: nat, perm: nat)
    requires CreateSucceeds(list, size, perm)
    ensures CreateVa(list, size) >= 0 && CreateVa(list, size) + size <= USER_TOP
    ensures AfterCreate(list, size, perm) == AfterInsert(list, NewArea(VmaAnon, CreateVa(list, size), size, perm, 0, 0))
    ensures HasSpareIn(list)
  {
  }

  /** Giving up the middle of an area keeps the rear part, but not what it is to be filled with: pages of the rear part
      that are faulted in afterwards read as zeros, also where the area belongs to a program file. */
  lemma RearPartReadsZero(list: seq<Area>, i: nat, va: nat, size: nat, view: map<Region, PageView>, root: nat,
                          image: int -> byte, order: seq<nat>, x: nat)
    requires GoodList(list) && va + size < WORD_LIMIT && i < |Visible(list)| && Visible(list)[i].Covers(va)
    requires var a, from, to := Visible(list)[i], RoundUp(va), RoundDown(va + size);
      a.va < from <= to < a.End() && HasSpareIn(list) && StartsNowhere(Visible(list), a.End()) && to <= x < a.End()
    requires (forall y :: y in order ==> y % 4096 == 0) && x / 4096 * 4096 in order
    ensures Reads(FaultAll(view, root, Visible(AfterDestroy(list, va, size)), image, order), root, x, 0,
                  Visible(list)[i].perm)
  {
    hide GoodList, Visible, FaultAll, Reads, Aligned, Backed, Fits, Spaced, AfterInsert, RoundUp, RoundDown, NewArea,
         AfterCut, AfterDestroy, StartsNowhere, PermAt;
    var areas, from, to := Visible(list), RoundUp(va), RoundDown(va + size);
    var a := areas[i];
    GoodIsSpaced(list);
    FindUnique(areas, va, i);
    VisibleAt(list, i);
    DestroyMeaning(list, va, size);
    CutUnfolded(list, i, from, to);
    GoodParts(list, i);
    TailBounds(areas, i, to);
    ShrunkSpaced(areas, i, from);
    var a1, t := a.(len := from - a.va), NewArea(a.kind, to, a.End() - to, a.perm, 0, 0);
    VisibleAfterShrink(list, i, a1);
    TailFits(areas, i, from, to);
    ShrunkIsGood(list, i, a1);
    InsertionMeaning(list[i := a1], t);
    NewAreaHolds(a.kind, to, a.End() - to, a.perm, 0, 0);
    GoodIsSpaced(AfterDestroy(list, va, size));
    AreaReads(view, root, Visible(AfterDestroy(list, va, size)), image, order, t, x);
  }

  lemma GoodParts(list: seq<Area>, i: nat)
    requires GoodList(list) && i < |Visible(list)|
    ensures AllBacked(Visible(list)) && Backed(Visible(list)[i])
  {
  }

  lemma ShrunkIsGood(list: seq<Area>, i: nat, a: Area)
    requires i < |Visible(list)| && i < |list| && Visible(list[i := a]) == Visible(list)[i := a]
    requires Spaced(Visible(list)[i := a]) && AllBacked(Visible(list)[i := a])
    ensures GoodList(list[i := a])
  {
  }
}

/** Virtual memory areas as values: the sequence of areas a lookup can see, and what lookup,
    placement, insertion and removal mean on it. */
module VmaSpec {
  import opened FreeList
  import opened Paging

  /** The end of user space: two page-directory-pointer-table spans below the canonical half. */
  const USER_TOP: nat := 0x8000_0000_0000 - 2 * 0x80_0000_0000

  datatype VmaType = VmaUnused | VmaAnon | VmaBinary

  /** An area: its page-aligned range, permissions, and the unaligned memory and file ranges of a binary. */
  datatype Area = Area(kind: VmaType, va: nat, len: nat, perm: nat,
                       memVa: nat, fileVa: nat, memSize: nat, fileSize: nat)
  {
    function End(): nat { va + len }
    predicate Covers(x: int) { va <= x < End() }
  }

  /** What a node holds before it is first used. */
  const UNUSED: Area := Area(VmaUnused, 0, 0, 0, 0, 0, 0, 0)

  ghost predicate Aligned(a: Area) {
    a.va % PAGE_SIZE == 0 && a.len % PAGE_SIZE == 0 && a.End() <= USER_TOP && a.kind != VmaUnused
  }

  /** Used areas are page-aligned, in user space, sorted and pairwise disjoint. */
  ghost predicate Spaced(areas: seq<Area>) {
    && (forall i :: 0 <= i < |areas| ==> Aligned(areas[i]))
    && (forall i, j :: 0 <= i < j < |areas| ==> areas[i].End() <= areas[j].va)
  }

  // ---- Lookup ----

  /** The position of the area that covers an address. */
  ghost function Find(areas: seq<Area>, x: int): (r: Option<nat>)
    ensures r.Some? ==> r.value < |areas| && areas[r.value].Covers(x)
    ensures r.None? ==> forall i :: 0 <= i < |areas| ==> !areas[i].Covers(x)
  {
    if i :| 0 <= i < |areas| && areas[i].Covers(x) then Some(i) else None
  }

  lemma FindUnique(areas: seq<Area>, x: int, i: nat)
    requires Spaced(areas) && i < |areas| && areas[i].Covers(x)
    ensures Find(areas, x) == Some(i)
  {
  }

  /** The permissions of the area an address lies in: what the kernel grants at that address. */
  ghost function PermAt(areas: seq<Area>, x: int): Option<nat> {
    match Find(areas, x)
    case None => None
    case Some(i) => Some(areas[i].perm)
  }

  lemma PermIs(areas: seq<Area>, x: int, i: nat)
    requires Spaced(areas) && i < |areas| && areas[i].Covers(x)
    ensures PermAt(areas, x) == Some(areas[i].perm)
  {
    FindUnique(areas, x, i);
  }

  // ---- Insertion ----

  function InsertAt<T>(s: seq<T>, j: nat, x: T): (r: seq<T>)
    requires j <= |s|
  {
    s[..j] + [x] + s[j..]
  }

  lemma InsertAtIndex<T>(s: seq<T>, j: nat, x: T)
    requires j <= |s|
    ensures var r := InsertAt(s, j, x);
      && |r| == |s| + 1 && r[j] == x
      && (forall i :: 0 <= i < j ==> r[i] == s[i])
      && (forall i :: j < i < |r| ==> r[i] == s[i - 1])
  {
  }

  /** The range [start, end) fits in front of position j: it begins at or after the end of the area
      before, and ends strictly below the start of the area behind. */
  predicate FitsAt(areas: seq<Area>, start: nat, end: nat, j: nat) {
    && j <= |areas|
    && (j > 0 ==> areas[j - 1].End() <= start)
    && (j < |areas| ==> end < areas[j].va)
  }

  lemma FitsAtOnePlace(areas: seq<Area>, start: nat, end: nat, i: nat, j: nat)
    requires Spaced(areas) && start <= end && FitsAt(areas, start, end, i) && FitsAt(areas, start, end, j)
    ensures i == j
  {
  }

  lemma InsertSpaced(areas: seq<Area>, a: Area, j: nat)
    requires Spaced(areas) && Aligned(a) && FitsAt(areas, a.va, a.End(), j)
    ensures Spaced(InsertAt(areas, j, a))
  {
    hide InsertAt, Aligned;
    var areas' := InsertAt(areas, j, a);
    InsertAtIndex(areas, j, a);
    forall i, k | 0 <= i < k < |areas'| ensures areas'[i].End() <= areas'[k].va {
      assert areas'[i] == if i < j then areas[i] else if i == j then a else areas[i - 1];
      assert areas'[k] == if k < j then areas[k] else if k == j then a else areas[k - 1];
      if k == j {
        assert areas[i].End() <= areas[j - 1].End();
      } else if i == j {
        assert areas[j].va <= areas[k - 1].va;
      }
    }
  }

  /** Inserting where it fits keeps the areas in order and grants exactly the new range on top of
      what was granted before. */
  lemma InsertMeaning(areas: seq<Area>, a: Area, j: nat)
    requires j <= |areas| && Spaced(areas) && Aligned(a) && FitsAt(areas, a.va, a.End(), j)
    ensures Spaced(InsertAt(areas, j, a))
    ensures forall x: int :: PermAt(InsertAt(areas, j, a), x) == if a.Covers(x) then Some(a.perm) else PermAt(areas, x)
  {
    hide InsertAt, PermAt, Spaced, Aligned, FitsAt;
    InsertSpaced(areas, a, j);
    forall x: int
      ensures PermAt(InsertAt(areas, j, a), x) == if a.Covers(x) then Some(a.perm) else PermAt(areas, x)
    {
      InsertedAt(areas, a, j, x);
    }
  }

  lemma InsertedAt(areas: seq<Area>, a: Area, j: nat, x: int)
    requires j <= |areas| && Spaced(areas) && Spaced(InsertAt(areas, j, a))
    ensures PermAt(InsertAt(areas, j, a), x) == if a.Covers(x) then Some(a.perm) else PermAt(areas, x)
  {
    hide InsertAt, Spaced;
    var areas' := InsertAt(areas, j, a);
    InsertAtIndex(areas, j, a);
    if a.Covers(x) {
      FindUnique(areas', x, j);
    } else if Find(areas, x).Some? {
      var i := Find(areas, x).value;
      FindUnique(areas', x, if i < j then i else i + 1);
    }
  }

  // ---- Removal ----

  lemma RemoveAtIndex<T>(s: seq<T>, k: nat)
    requires k < |s|
    ensures var r := RemoveAt(s, k);
      |r| == |s| - 1 && forall i :: 0 <= i < |r| ==> r[i] == s[if i < k then i else i + 1]
  {
  }

  lemma RemoveSpaced(areas: seq<Area>, k: nat)
    requires Spaced(areas) && k < |areas|
    ensures Spaced(RemoveAt(areas, k))
  {
    hide RemoveAt, Aligned;
    RemoveAtIndex(areas, k);
  }

  /** Removing an area takes away exactly its range. */
  lemma RemoveMeaning(areas: seq<Area>, k: nat)
    requires Spaced(areas) && k < |areas|
    ensures Spaced(RemoveAt(areas, k))
    ensures forall x: int :: PermAt(RemoveAt(areas, k), x) == if areas[k].Covers(x) then None else PermAt(areas, x)
  {
    hide RemoveAt, PermAt, Spaced;
    RemoveSpaced(areas, k);
    forall x: int
      ensures PermAt(RemoveAt(areas, k), x) == if areas[k].Covers(x) then None else PermAt(areas, x)
    {
      RemovedAt(areas, k, x);
    }
  }

  lemma RemovedAt(areas: seq<Area>, k: nat, x: int)
    requires k < |areas| && Spaced(areas) && Spaced(RemoveAt(areas, k))
    ensures PermAt(RemoveAt(areas, k), x) == if areas[k].Covers(x) then None else PermAt(areas, x)
  {
    hide RemoveAt, Spaced;
    var areas' := RemoveAt(areas, k);
    RemoveAtIndex(areas, k);
    if areas[k].Covers(x) {
      FindUnique(areas, x, k);
      if Find(areas', x).Some? {
        var i := Find(areas', x).value;
        FindUnique(areas, x, if i < k then i else i + 1);
      }
    } else if Find(areas, x).Some? {
      var i := Find(areas, x).value;
      FindUnique(areas', x, if i < k then i else i - 1);
    }
  }

  /** Shrinking an area to [va, va + len) inside its old range takes away exactly the rest. */
  lemma ShrinkMeaning(areas: seq<Area>, k: nat, va: nat, len: nat)
    requires Spaced(areas) && k < |areas|
    requires areas[k].va <= va && va + len <= areas[k].End() && va % PAGE_SIZE == 0 && len % PAGE_SIZE == 0
    ensures var a := areas[k].(va := va, len := len);
      && Spaced(areas[k := a])
      && forall x: int :: PermAt(areas[k := a], x) ==
           if areas[k].Covers(x) && !a.Covers(x) then None else PermAt(areas, x)
  {
    var a := areas[k].(va := va, len := len);
    var areas' := areas[k := a];
    forall x: int
      ensures PermAt(areas', x) == if areas[k].Covers(x) && !a.Covers(x) then None else PermAt(areas, x)
    {
      match Find(areas, x)
      case Some(i) =>
        FindUnique(areas, x, i);
        if i != k {
          PermIs(areas', x, i);
          PermIs(areas, x, i);
          assert !areas[k].Covers(x);
        } else if a.Covers(x) {
          PermIs(areas', x, k);
          PermIs(areas, x, k);
        }
      case None =>
    }
  }

  // ---- Placement ----

  /** No used area meets [start, start + size). */
  ghost predicate Vacant(areas: seq<Area>, start: nat, size: nat) {
    forall i :: 0 <= i < |areas| ==> areas[i].End() <= start || start + size <= areas[i].va
  }

  /** The gap behind area i is the first that takes the range; behind the last area that needs a
      spare node and room below the end of user space. */
  ghost predicate PlacedBehind(areas: seq<Area>, spare: bool, size: nat, r: int, i: nat) {
    && i < |areas|
    && (forall m :: 0 <= m < i ==> !GapTakes(areas, size, m))
    && (if i + 1 < |areas| then GapTakes(areas, size, i) && r == areas[i].End()
        else r == if spare && areas[i].End() + size <= USER_TOP then areas[i].End() else -1)
  }

  ghost predicate GapTakes(areas: seq<Area>, size: nat, m: nat)
    requires m + 1 < |areas|
  {
    areas[m].End() + size <= areas[m + 1].va
  }

  /** What the search for free address space returns: the top of the gap before the first area if that
      is large enough, else the bottom of the first gap that is. */
  ghost predicate Placed(areas: seq<Area>, spare: bool, size: nat, r: int) {
    if areas == [] then r == 0
    else if size <= areas[0].va then r == areas[0].va - size
    else exists i: nat :: PlacedBehind(areas, spare, size, r, i)
  }

  /** The search itself, from area i on. */
  function VmemBehind(areas: seq<Area>, spare: bool, size: nat, i: nat): int
    requires i < |areas|
    decreases |areas| - i
  {
    if i + 1 < |areas| then
      if areas[i].End() + size <= areas[i + 1].va then areas[i].End() else VmemBehind(areas, spare, size, i + 1)
    else if spare && areas[i].End() + size <= USER_TOP then areas[i].End()
    else -1
  }

  /** Where a new range of the given size goes, -1 if nowhere. `spare` says that an unused node follows the areas. */
  function Vmem(areas: seq<Area>, spare: bool, size: nat): int {
    if areas == [] then 0
    else if size <= areas[0].va then areas[0].va - size
    else VmemBehind(areas, spare, size, 0)
  }

  lemma {:induction false} VmemBehindIsPlaced(areas: seq<Area>, spare: bool, size: nat, i: nat)
    requires i < |areas| && forall m :: 0 <= m < i ==> !GapTakes(areas, size, m)
    ensures exists k: nat :: PlacedBehind(areas, spare, size, VmemBehind(areas, spare, size, i), k)
    decreases |areas| - i
  {
    if i + 1 < |areas| && !GapTakes(areas, size, i) {
      VmemBehindIsPlaced(areas, spare, size, i + 1);
    } else {
      assert PlacedBehind(areas, spare, size, VmemBehind(areas, spare, size, i), i);
    }
  }

  lemma VmemIsPlaced(areas: seq<Area>, spare: bool, size: nat)
    ensures Placed(areas, spare, size, Vmem(areas, spare, size))
  {
    if areas != [] && size > areas[0].va {
      VmemBehindIsPlaced(areas, spare, size, 0);
    }
  }

  /** The search is sound, and finds room whenever there is any: with a spare node it fails only if no
      vacant range of that size exists in user space. */
  lemma PlacementSoundAndComplete(areas: seq<Area>, spare: bool, size: nat, r: int)
    requires Spaced(areas) && Placed(areas, spare, size, r)
    ensures r == -1 || (0 <= r && Vacant(areas, r, size) && (areas != [] ==> r + size <= USER_TOP))
    ensures areas != [] && r == -1 && spare && size > 0 ==>
      forall start: nat :: Vacant(areas, start, size) ==> start + size > USER_TOP
  {
    if areas != [] {
      if size <= areas[0].va {
        assert Aligned(areas[0]);
        assert Vacant(areas, r, size);
      } else {
        var i: nat :| PlacedBehind(areas, spare, size, r, i);
        assert Aligned(areas[i]);
        BehindIsVacant(areas, size, i);
        if r == -1 && spare && size > 0 {
          forall start: nat | Vacant(areas, start, size) ensures start + size > USER_TOP {
            NoRoomBefore(areas, start, size, i);
          }
        }
      }
    }
  }

  /** Which place the search finds: address 0 when there is no area, else the top of the gap in front of the first area
      if that is large enough, else the bottom of the first gap that is, where the gap behind the last area ends with
      user space and counts only if a node is left. */
  lemma PlacementIsFirstFit(areas: seq<Area>, spare: bool, size: nat)
    ensures var r, n := Vmem(areas, spare, size), |areas|;
      && (areas == [] ==> r == 0)
      && (areas != [] && size <= areas[0].va ==> r == areas[0].va - size)
      && (areas != [] && size > areas[0].va ==>
            || (exists k, next :: 0 <= k < next < n && next == k + 1 &&
                  r == areas[k].va + areas[k].len && r + size <= areas[next].va &&
                  forall m, after :: 0 <= m < after <= k && after == m + 1 ==>
                    areas[m].va + areas[m].len + size > areas[after].va)
            || ((forall m, after :: 0 <= m < after < n && after == m + 1 ==>
                   areas[m].va + areas[m].len + size > areas[after].va) &&
                  var end := areas[n - 1].va + areas[n - 1].len;
                  r == if spare && end + size <= 0x7F00_0000_0000 then end else -1))
  {
    if areas != [] && size > areas[0].va {
      VmemIsPlaced(areas, spare, size);
      var i: nat :| PlacedBehind(areas, spare, size, Vmem(areas, spare, size), i);
      hide Vmem, GapTakes;
      forall m, after | 0 <= m < after <= i && after == m + 1
        ensures areas[m].va + areas[m].len + size > areas[after].va
      {
        GapBehind(areas, size, m);
      }
      if i + 1 < |areas| {
        GapBehind(areas, size, i);
        assert areas[i].End() == areas[i].va + areas[i].len;
      }
    }
  }

  lemma GapBehind(areas: seq<Area>, size: nat, m: nat)
    requires m + 1 < |areas|
    ensures GapTakes(areas, size, m) <==> areas[m].va + areas[m].len + size <= areas[m + 1].va
  {
  }

  /** The range found ends in user space unless there is no area at all, where the size is not tested. */
  lemma EndsInUserSpace(areas: seq<Area>, spare: bool, size: nat)
    requires Spaced(areas) && Vmem(areas, spare, size) >= 0
    ensures Vmem(areas, spare, size) + size <= USER_TOP <==> areas != [] || size <= USER_TOP
  {
    hide Spaced, Placed;
    VmemIsPlaced(areas, spare, size);
    PlacementSoundAndComplete(areas, spare, size, Vmem(areas, spare, size));
  }

  lemma BehindIsVacant(areas: seq<Area>, size: nat, i: nat)
    requires Spaced(areas) && i < |areas| && (i + 1 < |areas| ==> GapTakes(areas, size, i))
    ensures Vacant(areas, areas[i].End(), size)
    ensures i + 1 < |areas| ==> areas[i].End() + size <= USER_TOP
  {
    if i + 1 < |areas| {
      assert Aligned(areas[i + 1]);
    }
    forall k | 0 <= k < |areas|
      ensures areas[k].End() <= areas[i].End() || areas[i].End() + size <= areas[k].va
    {
      if k < i {
        assert areas[k].End() <= areas[i].va;
      } else if k > i {
        assert k == i + 1 || areas[i + 1].End() <= areas[k].va;
      }
    }
  }

  lemma {:induction false} NoRoomBefore(areas: seq<Area>, start: nat, size: nat, i: nat)
    requires Spaced(areas) && Vacant(areas, start, size) && size > 0 && i < |areas|
    requires size > areas[0].va && forall m :: 0 <= m < i ==> !GapTakes(areas, size, m)
    ensures areas[i].End() <= start
    decreases i
  {
    if i > 0 {
      NoRoomBefore(areas, start, size, i - 1);
      assert !GapTakes(areas, size, i - 1);
    }
  }

  ghost predicate Fits(areas: seq<Area>, start: nat, end: nat) {
    exists j: nat :: FitsAt(areas, start, end, j)
  }

  ghost predicate StartsNowhere(areas: seq<Area>, x: nat) {
    forall k :: 0 <= k < |areas| ==> areas[k].va != x
  }

  /** What it means to fit, area by area. */
  lemma FitsIffApart(areas: seq<Area>, start: nat, end: nat)
    requires Spaced(areas) && start <= end
    ensures Fits(areas, start, end) <==> ApartFrom(areas, start, end)
  {
    hide Aligned;
    if ApartFrom(areas, start, end) {
      FirstBehind(areas, start, end, 0);
    } else if j: nat :| FitsAt(areas, start, end, j) {
      forall k | 0 <= k < |areas| ensures areas[k].End() <= start || end < areas[k].va {
        if k < j {
          assert k == j - 1 || areas[k].End() <= areas[j - 1].va;
        } else {
          assert k == j || areas[j].End() <= areas[k].va;
        }
      }
    }
  }

  /** Every area ends at or before the start of the range or begins strictly behind its end. */
  predicate ApartFrom(areas: seq<Area>, start: nat, end: nat) {
    forall k :: 0 <= k < |areas| ==> areas[k].End() <= start || end < areas[k].va
  }

  lemma {:induction false} FirstBehind(areas: seq<Area>, start: nat, end: nat, j: nat)
    requires ApartFrom(areas, start, end) && j <= |areas| && (j > 0 ==> areas[j - 1].End() <= start)
    ensures Fits(areas, start, end)
    decreases |areas| - j
  {
    if j == |areas| || end < areas[j].va {
      assert FitsAt(areas, start, end, j);
    } else {
      FirstBehind(areas, start, end, j + 1);
    }
  }

  /** A range the search returns is one the insertion accepts exactly when no area starts where the
      range ends: an exact fit is not accepted. */
  lemma PlacementFitsUnlessExact(areas: seq<Area>, spare: bool, size: nat, r: nat)
    requires Spaced(areas) && Placed(areas, spare, size, r) && size > 0
    ensures Fits(areas, r, r + size) <==> StartsNowhere(areas, r + size)
  {
    hide Spaced, Placed, Fits;
    PlacementSoundAndComplete(areas, spare, size, r);
    FitsIffApart(areas, r, r + size);
    if !StartsNowhere(areas, r + size) {
      var k :| 0 <= k < |areas| && areas[k].va == r + size;
      assert areas[k].End() > r;
    }
  }

  /** The range the search finds ends exactly where an area starts. */
  ghost predicate ExactFit(areas: seq<Area>, spare: bool, size: nat) {
    var va := Vmem(areas, spare, size);
    va >= 0 && !StartsNowhere(areas, va + size)
  }

  // ---- The list with its unused nodes ----

  /** The areas up to the first unused node: all that a lookup can see. */
  function Visible(list: seq<Area>): (r: seq<Area>)
    ensures |r| <= |list| && r == list[..|r|]
    ensures forall i :: 0 <= i < |r| ==> list[i].kind != VmaUnused
    ensures |r| < |list| ==> list[|r|].kind == VmaUnused
  {
    if list == [] || list[0].kind == VmaUnused then [] else [list[0]] + Visible(list[1..])
  }

  /** Visible areas come first in the list. */
  lemma VisibleAt(list: seq<Area>, i: nat)
    requires i < |Visible(list)|
    ensures i < |list| && list[i] == Visible(list)[i]
  {
  }

  lemma VisibleIs(list: seq<Area>, k: nat)
    requires k <= |list| && (forall i :: 0 <= i < k ==> list[i].kind != VmaUnused)
    requires k < |list| ==> list[k].kind == VmaUnused
    ensures Visible(list) == list[..k]
  {
    var r := Visible(list);
    assert |r| == k;
  }

  lemma VisibleIsPrefix(list: seq<Area>, areas: seq<Area>)
    requires |areas| <= |list| && forall i :: 0 <= i < |areas| ==> list[i] == areas[i] && areas[i].kind != VmaUnused
    requires |areas| < |list| ==> list[|areas|].kind == VmaUnused
    ensures Visible(list) == areas
  {
    VisibleIs(list, |areas|);
  }

  /** The last node is free to take. */
  predicate HasSpareIn(list: seq<Area>) {
    list != [] && list[|list| - 1].kind == VmaUnused
  }

  /** All areas come before all unused nodes. */
  predicate TidyList(list: seq<Area>) {
    forall i :: |Visible(list)| <= i < |list| ==> list[i].kind == VmaUnused
  }

  /** The walk that inserts a range would put it in front of position j. */
  predicate Takes(list: seq<Area>, start: nat, end: nat, j: nat)
    requires j <= |list|
  {
    && (j > 0 ==> list[j - 1].End() <= start)
    && (j < |list| ==> list[j].kind == VmaUnused || end < list[j].va)
  }

  /** The first such position from i on. */
  function PlaceFrom(list: seq<Area>, start: nat, end: nat, i: nat): (r: Option<nat>)
    requires i <= |list|
    ensures r.Some? ==> i <= r.value <= |list| && Takes(list, start, end, r.value)
    ensures forall m :: i <= m <= |list| && (r.Some? ==> m < r.value) ==> !Takes(list, start, end, m)
    decreases |list| - i
  {
    if Takes(list, start, end, i) then Some(i)
    else if i == |list| then None
    else PlaceFrom(list, start, end, i + 1)
  }

  function AfterPlace(list: seq<Area>, a: Area): seq<Area> {
    match PlaceFrom(list, a.va, a.End(), 0)
    case None => list
    case Some(j) => InsertAt(list, j, a)
  }

  /** An insertion takes the spare node off the end and links it in at the first place the walk finds. */
  function AfterInsert(list: seq<Area>, a: Area): seq<Area> {
    if HasSpareIn(list) then AfterPlace(list[..|list| - 1], a) else list
  }

  /** The insertion returns a node. */
  predicate InsertSucceeds(list: seq<Area>, a: Area) {
    HasSpareIn(list) && PlaceFrom(list[..|list| - 1], a.va, a.End(), 0).Some?
  }

  /** Without its spare last node the list shows the same areas. */
  lemma VisibleWithoutSpare(list: seq<Area>)
    requires HasSpareIn(list)
    ensures |Visible(list)| < |list| && Visible(list[..|list| - 1]) == Visible(list)
  {
    VisibleIs(list[..|list| - 1], |Visible(list)|);
  }

  lemma TakesIsFits(list: seq<Area>, start: nat, end: nat, j: nat)
    requires j <= |Visible(list)|
    ensures Takes(list, start, end, j) <==> FitsAt(Visible(list), start, end, j)
  {
  }

  /** What an insertion means for the visible areas: the new one joins them, at the one place where it fits, exactly
      when it fits; otherwise they stay as they are. */
  lemma PlaceMeaning(list: seq<Area>, a: Area)
    requires Spaced(Visible(list)) && Aligned(a)
    ensures var areas, areas' := Visible(list), Visible(AfterPlace(list, a));
      && Spaced(areas')
      && (if Fits(areas, a.va, a.End())
          then exists j: nat :: FitsAt(areas, a.va, a.End(), j) && areas' == InsertAt(areas, j, a)
          else areas' == areas)
      && (Fits(areas, a.va, a.End()) ==> PlaceFrom(list, a.va, a.End(), 0).Some?)
  {
    hide Spaced, Aligned;
    var areas, place := Visible(list), PlaceFrom(list, a.va, a.End(), 0);
    assert a.kind != VmaUnused by { AlignedIsUsed(a); }
    if j: nat :| FitsAt(areas, a.va, a.End(), j) {
      TakesIsFits(list, a.va, a.End(), j);
      assert place.Some? && place.value <= j;
      TakesIsFits(list, a.va, a.End(), place.value);
      VisibleAfterInsert(list, place.value, a);
      InsertSpaced(areas, a, place.value);
    } else if place.Some? {
      if place.value <= |areas| {
        TakesIsFits(list, a.va, a.End(), place.value);
      }
      HiddenAfterInsert(list, place.value, a);
    }
  }

  lemma AlignedIsUsed(a: Area)
    requires Aligned(a)
    ensures a.kind != VmaUnused
  {
  }

  lemma VisibleAfterInsert(list: seq<Area>, j: nat, a: Area)
    requires j <= |Visible(list)| && a.kind != VmaUnused
    ensures Visible(InsertAt(list, j, a)) == InsertAt(Visible(list), j, a)
  {
    hide InsertAt, Visible;
    var areas, list', areas' := Visible(list), InsertAt(list, j, a), InsertAt(Visible(list), j, a);
    InsertAtIndex(list, j, a);
    InsertAtIndex(areas, j, a);
    forall i | 0 <= i < |areas'| ensures list'[i] == areas'[i] && areas'[i].kind != VmaUnused {
      assert i != j ==> list[if i < j then i else i - 1] == areas[if i < j then i else i - 1];
    }
    VisibleIsPrefix(list', areas');
  }

  lemma HiddenAfterInsert(list: seq<Area>, j: nat, a: Area)
    requires |Visible(list)| < j <= |list|
    ensures Visible(InsertAt(list, j, a)) == Visible(list)
  {
    hide InsertAt;
    InsertAtIndex(list, j, a);
    VisibleIs(InsertAt(list, j, a), |Visible(list)|);
  }

  /** Some place behind the visible areas would do for the walk of an insertion. */
  predicate TakesBehind(list: seq<Area>, start: nat, end: nat) {
    exists j :: |Visible(list)| < j <= |list| && Takes(list, start, end, j)
  }

  /** The same for the list without its last node, which is the one inserted. */
  predicate TakesHidden(list: seq<Area>, start: nat, end: nat) {
    list != [] && TakesBehind(list[..|list| - 1], start, end)
  }

  /** An area is rejected exactly when it fits nowhere among the visible areas and the walk takes it nowhere behind
      them either. If it fits nowhere and is not rejected, it ends up where no lookup sees it. */
  lemma RejectedIff(list: seq<Area>, a: Area)
    requires HasSpareIn(list) && Spaced(Visible(list)) && Aligned(a)
    ensures !InsertSucceeds(list, a) <==> !Fits(Visible(list), a.va, a.End()) && !TakesHidden(list, a.va, a.End())
  {
    hide Spaced, Aligned, Takes;
    var rest, areas := list[..|list| - 1], Visible(list);
    VisibleWithoutSpare(list);
    RejectedByAll(rest, a.va, a.End());
  }

  lemma RejectedByAll(list: seq<Area>, start: nat, end: nat)
    ensures PlaceFrom(list, start, end, 0) == None <==>
      !Fits(Visible(list), start, end) && !TakesBehind(list, start, end)
  {
    hide Takes;
    var n := |Visible(list)|;
    if PlaceFrom(list, start, end, 0) == None {
      forall j: nat | j <= n ensures !FitsAt(Visible(list), start, end, j) {
        TakesIsFits(list, start, end, j);
      }
    } else {
      var j := PlaceFrom(list, start, end, 0).value;
      if j <= n {
        TakesIsFits(list, start, end, j);
      }
    }
  }

  /** As long as all areas come before all unused nodes, that means: every unused node but the last ends behind the
      start of the range. */
  lemma TakesHiddenTidy(list: seq<Area>, start: nat, end: nat)
    requires TidyList(list) && HasSpareIn(list)
    ensures TakesHidden(list, start, end) <==> exists i :: |Visible(list)| <= i < |list| - 1 && list[i].End() <= start
  {
    hide Visible;
    var rest := list[..|list| - 1];
    VisibleWithoutSpare(list);
    if i :| |Visible(list)| <= i < |list| - 1 && list[i].End() <= start {
      assert Takes(rest, start, end, i + 1);
    }
    if TakesHidden(list, start, end) {
      var j :| |Visible(rest)| < j <= |rest| && Takes(rest, start, end, j);
      assert list[j - 1].End() <= start;
    }
  }

  /** An insertion into a tidy list leaves it tidy unless the area is accepted where no lookup sees it. */
  lemma TidyAfter(list: seq<Area>, a: Area)
    requires TidyList(list) && HasSpareIn(list) && Spaced(Visible(list)) && Aligned(a)
    ensures TidyList(AfterInsert(list, a)) <==> Fits(Visible(list), a.va, a.End()) || !InsertSucceeds(list, a)
  {
    hide Spaced, Fits, Takes, PlaceFrom, InsertAt, TidyList;
    var rest := list[..|list| - 1];
    VisibleWithoutSpare(list);
    TidyWithoutSpare(list);
    RejectedByAll(rest, a.va, a.End());
    AlignedIsUsed(a);
    hide Aligned;
    var place := PlaceFrom(rest, a.va, a.End(), 0);
    if place.Some? {
      assert place.value <= |rest|;
      TidyAfterInsert(rest, place.value, a);
      PlacedVisiblyIff(rest, a.va, a.End());
    }
  }

  lemma TidyWithoutSpare(list: seq<Area>)
    requires TidyList(list) && HasSpareIn(list)
    ensures TidyList(list[..|list| - 1])
  {
    VisibleWithoutSpare(list);
  }

  lemma PlacedVisiblyIff(list: seq<Area>, start: nat, end: nat)
    requires PlaceFrom(list, start, end, 0).Some?
    ensures PlaceFrom(list, start, end, 0).value <= |Visible(list)| <==> Fits(Visible(list), start, end)
  {
    var areas, place := Visible(list), PlaceFrom(list, start, end, 0).value;
    if j: nat :| FitsAt(areas, start, end, j) {
      TakesIsFits(list, start, end, j);
      assert place <= j;
    } else if place <= |areas| {
      TakesIsFits(list, start, end, place);
      assert false;
    }
  }

  lemma TidyAfterInsert(list: seq<Area>, j: nat, a: Area)
    requires TidyList(list) && j <= |list| && a.kind != VmaUnused
    ensures TidyList(InsertAt(list, j, a)) <==> j <= |Visible(list)|
  {
    hide InsertAt, Visible;
    var list' := InsertAt(list, j, a);
    InsertAtIndex(list, j, a);
    if j <= |Visible(list)| {
      VisibleAfterInsert(list, j, a);
      InsertAtIndex(Visible(list), j, a);
    } else {
      HiddenAfterInsert(list, j, a);
      assert list'[j].kind != VmaUnused;
    }
  }

  /** An area becomes unused and its node moves to the end. */
  function AfterUnuse(list: seq<Area>, k: nat): seq<Area>
    requires k < |list|
  {
    RemoveAt(list, k) + [list[k].(va := 0, kind := VmaUnused)]
  }

  lemma UnuseMeaning(list: seq<Area>, k: nat)
    requires k < |Visible(list)|
    ensures Visible(AfterUnuse(list, k)) == RemoveAt(Visible(list), k)
    ensures HasSpareIn(AfterUnuse(list, k)) && (TidyList(list) ==> TidyList(AfterUnuse(list, k)))
  {
    hide RemoveAt, Visible;
    var areas, list', areas' := Visible(list), AfterUnuse(list, k), RemoveAt(Visible(list), k);
    RemoveAtIndex(list, k);
    RemoveAtIndex(areas, k);
    forall i | 0 <= i < |areas'| ensures list'[i] == areas'[i] && areas'[i].kind != VmaUnused {
      assert list[if i < k then i else i + 1] == areas[if i < k then i else i + 1];
    }
    VisibleIsPrefix(list', areas');
  }

  lemma VisibleAfterShrink(list: seq<Area>, k: nat, a: Area)
    requires k < |Visible(list)| && a.kind == list[k].kind
    ensures Visible(list[k := a]) == Visible(list)[k := a] && HasSpareIn(list[k := a]) == HasSpareIn(list)
    ensures TidyList(list) ==> TidyList(list[k := a])
  {
    VisibleIs(list[k := a], |Visible(list)|);
  }

  /** The area an insertion makes for [memVa, memVa + memSize), rounded out to pages. */
  function NewArea(kind: VmaType, memVa: nat, memSize: nat, perm: nat, fileVa: nat, fileSize: nat): Area
    requires memVa + memSize <= USER_TOP
  {
    RoundUpIsCeiling(memVa + memSize);
    Area(kind, RoundDown(memVa), RoundUp(memVa + memSize) - RoundDown(memVa), perm, memVa, fileVa, memSize, fileSize)
  }

  /** What it holds: the range from the page boundary at or below the start to the first one at or above the end, and
      everything else as asked for. */
  lemma NewAreaHolds(kind: VmaType, memVa: nat, memSize: nat, perm: nat, fileVa: nat, fileSize: nat)
    requires memVa + memSize <= USER_TOP
    ensures var a := NewArea(kind, memVa, memSize, perm, fileVa, fileSize);
      && a.va % 4096 == 0 && a.va <= memVa < a.va + 4096
      && a.End() % 4096 == 0 && memVa + memSize <= a.End() < memVa + memSize + 4096
      && a.kind == kind && a.perm == perm
      && a.memVa == memVa && a.memSize == memSize && a.fileVa == fileVa && a.fileSize == fileSize
  {
    RoundUpIsCeiling(memVa + memSize);
  }

  /** What giving up an area leaves behind: the other nodes in their order, and at the end a node that no longer has
      an address or a use, but still the length and all else it had. */
  lemma UnusedKeepsLength(list: seq<Area>, k: nat)
    requires k < |list|
    ensures var list', n := AfterUnuse(list, k), |list| - 1;
      && |list'| == |list| && (forall i :: 0 <= i < n ==> list'[i] == list[if i < k then i else i + 1])
      && list'[n] == Area(VmaUnused, 0, list[k].len, list[k].perm, list[k].memVa, list[k].fileVa, list[k].memSize,
                          list[k].fileSize)
  {
  }
}
